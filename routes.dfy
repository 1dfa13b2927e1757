/**
 * The five routes of src/routes/userRoutes.ts, each a chain of middlewares
 * ending in a controller handler, followed by what src/app.ts mounts after
 * the router: `next(err)` reaches `errorHandler`, a bare `next()` reaches
 * `notFoundHandler`. Every route here answers with exactly one response.
 */
module Routes {
  import opened Wrappers
  import opened Users
  import opened Errors
  import opened Http
  import opened Validation
  import opened ErrorHandler
  import Controller

  /** The response a client sees once the last middleware of a route has acted. */
  function Finish(o: Outcome, header: Option<string>): (r: Response)
    ensures o.Respond? ==> r == o.response
    ensures o.NextError? ==> r == HandleError(o.error, header)
    ensures o.Next? ==> r == NotFound(header)
  {
    match o
    case Respond(response) => response
    case NextError(err) => HandleError(err, header)
    case Next => NotFound(header)
  }

  /** The body the error handler writes for `ApiError(status, message)`. */
  function ApiErrorResponse(status: int, message: string, header: Option<string>): Response {
    Response(status, ErrorJson("ApiError", message, RequestId(header)))
  }

  /**
   * What every route keeps true of the table: each stored name is at least
   * two UTF-16 code units long once trimmed and each stored email has the
   * local@domain.tld form. The store alone does not check this; the
   * validators in front of it do.
   */
  ghost predicate WellFormedUsers(users: seq<User>) {
    forall u :: u in users ==> NameLongEnough(u.name) && MatchesEmailPattern(u.email)
  }

  /** `GET /api/users`: the whole table with 200. */
  function GetList(store: UserStore, req: Request): (res: Response)
    reads store
    ensures res == Response(200, UserListJson(store.users))
  {
    Finish(Controller.GetAllUsers(store), req.requestIdHeader)
  }

  /** `GET /api/users/:id`: a 400 when the id has no leading digits, else the user or a 404; never a store change. */
  method GetOne(store: UserStore, req: Request) returns (res: Response)
    requires store.Valid()
    modifies req
    ensures ParseInt(old(req.idParam)).None? ==> req.idParam == old(req.idParam)
    ensures ParseInt(old(req.idParam)).Some? ==> req.idParam == IntToString(ParseInt(old(req.idParam)).value)
    ensures var id := ParseInt(old(req.idParam));
      if id.None? then
        res == ApiErrorResponse(400, InvalidIdFormat, req.requestIdHeader)
      else if HasId(store.users, id.value) then
        res.status == 200 && res.payload.UserJson?
        && res.payload.user in store.users && res.payload.user.id == id.value
      else
        res == ApiErrorResponse(404, "User not found", req.requestIdHeader)
  {
    var o := ValidateIdParam(req);
    if o.Next? {
      o := Controller.GetUserById(store, req);
    }
    res := Finish(o, req.requestIdHeader);
  }

  /** What `errorHandler` writes for an `ApiError` passed to `next`. */
  lemma ApiErrorFinish(status: int, message: string, header: Option<string>)
    ensures Finish(NextError(ApiError(status, message)), header) == ApiErrorResponse(status, message, header)
  {
  }

  /**
   * `POST /api/users`: a body with violations is a 400 listing them all and
   * never reaches the store; otherwise the record is created with the next
   * id and sent back with 201.
   */
  method Post(store: UserStore, req: Request) returns (res: Response)
    requires store.Valid() && req.httpMethod == "POST"
    modifies store
    ensures store.Valid()
    ensures |Violations("POST", req.body)| != 0 ==>
      && res == ApiErrorResponse(400, Join(Violations("POST", req.body), "; "), req.requestIdHeader)
      && store.users == old(store.users) && store.lastId == old(store.lastId)
    ensures |Violations("POST", req.body)| == 0 ==> req.body.name.Text? && req.body.email.Text?
    ensures |Violations("POST", req.body)| == 0 ==>
      var u := User(old(store.lastId) + 1, req.body.name.s, req.body.email.s);
      res == Response(201, UserJson(u)) && store.users == old(store.users) + [u] && store.lastId == u.id
    ensures WellFormedUsers(old(store.users)) ==> WellFormedUsers(store.users)
  {
    var o := ValidateUserInput(req);
    if o.NextError? {
      ApiErrorFinish(400, Join(Violations("POST", req.body), "; "), req.requestIdHeader);
      res := Finish(o, req.requestIdHeader);
      return;
    }
    PostAccepted(req.body);
    res := CreateAccepted(store, req);
  }

  /** The end of the POST chain once `validateUserInput` has passed the body: `createUser`. */
  method CreateAccepted(store: UserStore, req: Request) returns (res: Response)
    requires store.Valid()
    requires req.body.name.Text? && NameLongEnough(req.body.name.s)
    requires req.body.email.Text? && MatchesEmailPattern(req.body.email.s)
    modifies store
    ensures store.Valid()
    ensures var u := User(old(store.lastId) + 1, req.body.name.s, req.body.email.s);
      res == Response(201, UserJson(u)) && store.users == old(store.users) + [u] && store.lastId == u.id
    ensures WellFormedUsers(old(store.users)) ==> WellFormedUsers(store.users)
  {
    ghost var before := store.users;
    var o := Controller.CreateUser(store, req);
    if WellFormedUsers(before) {
      AppendKeepsWellFormed(before, o.response.payload.user);
    }
    res := Finish(o, req.requestIdHeader);
  }

  /** Appending a record whose name and email pass the validator keeps every record well formed. */
  lemma AppendKeepsWellFormed(users: seq<User>, u: User)
    requires WellFormedUsers(users)
    requires NameLongEnough(u.name) && MatchesEmailPattern(u.email)
    ensures WellFormedUsers(users + [u])
  {
  }

  /**
   * `PUT /api/users/:id`: the id check runs first, so a bad id is a 400 for
   * the id whatever the body; then the body check; then the update, which
   * answers 200 with the merged record or 404. Only a successful update
   * changes the table.
   */
  method Put(store: UserStore, req: Request) returns (res: Response)
    requires store.Valid() && req.httpMethod == "PUT"
    modifies store, req
    ensures ParseInt(old(req.idParam)).None? ==> req.idParam == old(req.idParam)
    ensures ParseInt(old(req.idParam)).Some? ==> req.idParam == IntToString(ParseInt(old(req.idParam)).value)
    ensures store.Valid() && store.lastId == old(store.lastId)
    ensures |Violations("PUT", req.body)| == 0 ==> !req.body.name.OtherType? && !req.body.email.OtherType?
    ensures var id := ParseInt(old(req.idParam));
      var v := Violations("PUT", req.body);
      if id.None? then
        res == ApiErrorResponse(400, InvalidIdFormat, req.requestIdHeader) && store.users == old(store.users)
      else if |v| != 0 then
        res == ApiErrorResponse(400, Join(v, "; "), req.requestIdHeader) && store.users == old(store.users)
      else if HasId(old(store.users), id.value) then
        var k := IndexOf(old(store.users), id.value);
        var u := Merge(old(store.users)[k], Controller.UpdateData(req.body));
        res == Response(200, UserJson(u)) && store.users == old(store.users)[k := u]
      else
        res == ApiErrorResponse(404, "User not found", req.requestIdHeader) && store.users == old(store.users)
    ensures WellFormedUsers(old(store.users)) ==> WellFormedUsers(store.users)
  {
    ghost var id := ParseInt(req.idParam);
    var o := ValidateIdParam(req);
    if o.NextError? {
      ApiErrorFinish(400, InvalidIdFormat, req.requestIdHeader);
      res := Finish(o, req.requestIdHeader);
      return;
    }
    res := PutValidId(store, req, id.value);
  }

  /** The PUT chain after `validateIdParam` has passed the id `id`: the body check, then the update. */
  method PutValidId(store: UserStore, req: Request, ghost id: int) returns (res: Response)
    requires store.Valid() && req.httpMethod == "PUT" && ParseInt(req.idParam) == Some(id)
    modifies store
    ensures store.Valid() && store.lastId == old(store.lastId)
    ensures |Violations("PUT", req.body)| == 0 ==> !req.body.name.OtherType? && !req.body.email.OtherType?
    ensures var v := Violations("PUT", req.body);
      if |v| != 0 then
        res == ApiErrorResponse(400, Join(v, "; "), req.requestIdHeader) && store.users == old(store.users)
      else if HasId(old(store.users), id) then
        var k := IndexOf(old(store.users), id);
        var u := Merge(old(store.users)[k], Controller.UpdateData(req.body));
        res == Response(200, UserJson(u)) && store.users == old(store.users)[k := u]
      else
        res == ApiErrorResponse(404, "User not found", req.requestIdHeader) && store.users == old(store.users)
    ensures WellFormedUsers(old(store.users)) ==> WellFormedUsers(store.users)
  {
    var o := ValidateUserInput(req);
    if o.NextError? {
      ApiErrorFinish(400, Join(Violations("PUT", req.body), "; "), req.requestIdHeader);
      res := Finish(o, req.requestIdHeader);
      return;
    }
    PutAccepted(req.body);
    res := UpdateAccepted(store, req, id);
  }

  /** The end of the PUT chain once both validators have passed: `updateUser`. */
  method UpdateAccepted(store: UserStore, req: Request, ghost id: int) returns (res: Response)
    requires store.Valid() && ParseInt(req.idParam) == Some(id)
    requires !req.body.name.OtherType? && !req.body.email.OtherType?
    requires NameAcceptable(req.body.name) && EmailAcceptable(req.body.email)
    modifies store
    ensures store.Valid() && store.lastId == old(store.lastId)
    ensures HasId(old(store.users), id) ==>
      var k := IndexOf(old(store.users), id);
      var u := Merge(old(store.users)[k], Controller.UpdateData(req.body));
      res == Response(200, UserJson(u)) && store.users == old(store.users)[k := u]
    ensures !HasId(old(store.users), id) ==>
      res == ApiErrorResponse(404, "User not found", req.requestIdHeader) && store.users == old(store.users)
    ensures WellFormedUsers(old(store.users)) ==> WellFormedUsers(store.users)
  {
    ghost var before := store.users;
    var o := Controller.UpdateUser(store, req);
    if HasId(before, id) {
      if WellFormedUsers(before) {
        UpdateKeepsWellFormed(before, IndexOf(before, id), req.body);
      }
    } else {
      ApiErrorFinish(404, "User not found", req.requestIdHeader);
    }
    res := Finish(o, req.requestIdHeader);
  }

  /** Merging an accepted PUT body into one record keeps every record well formed. */
  lemma UpdateKeepsWellFormed(users: seq<User>, k: int, body: RequestBody)
    requires 0 <= k < |users| && WellFormedUsers(users)
    requires NameAcceptable(body.name) && EmailAcceptable(body.email)
    ensures WellFormedUsers(users[k := Merge(users[k], Controller.UpdateData(body))])
  {
    var u := Merge(users[k], Controller.UpdateData(body));
    var after := users[k := u];
    assert users[k] in users;
    forall v | v in after ensures NameLongEnough(v.name) && MatchesEmailPattern(v.email) {
      var i :| 0 <= i < |after| && after[i] == v;
      if i != k {
        assert users[i] in users;
      }
    }
  }

  /** `DELETE /api/users/:id`: a 400 for a bad id, a 404 for an unknown one, else the record is removed and the answer is an empty 204. */
  method Delete(store: UserStore, req: Request) returns (res: Response)
    requires store.Valid()
    modifies store, req
    ensures ParseInt(old(req.idParam)).None? ==> req.idParam == old(req.idParam)
    ensures ParseInt(old(req.idParam)).Some? ==> req.idParam == IntToString(ParseInt(old(req.idParam)).value)
    ensures store.Valid() && store.lastId == old(store.lastId)
    ensures var id := ParseInt(old(req.idParam));
      if id.None? then
        res == ApiErrorResponse(400, InvalidIdFormat, req.requestIdHeader) && store.users == old(store.users)
      else if HasId(old(store.users), id.value) then
        res == Response(204, NoContent) && store.users == Without(old(store.users), id.value)
      else
        res == ApiErrorResponse(404, "User not found", req.requestIdHeader) && store.users == old(store.users)
    ensures WellFormedUsers(old(store.users)) ==> WellFormedUsers(store.users)
  {
    var o := ValidateIdParam(req);
    if o.Next? {
      o := Controller.DeleteUser(store, req);
    }
    res := Finish(o, req.requestIdHeader);
  }
}
