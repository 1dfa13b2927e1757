/**
 * The five handlers of src/controllers/UserController.ts. Each one calls
 * the store once, inside a try/catch: a value that came back is shaped into
 * one response, "not found" becomes `ApiError(404, 'User not found')`, and
 * anything the store threw is passed to `next` as it is.
 */
module Controller {
  import opened Wrappers
  import opened Users
  import opened Errors
  import opened Http
  import opened Validation

  const UserNotFound := ApiError(404, "User not found")

  /** What a store call produced: its value, or the error it threw. */
  datatype Call<T> = Returned(value: T) | Threw(error: Failure)

  // ---------------------------------------------------------------------
  // The body of each try/catch, from the store's answer to the handler's single action

  /** `getAllUsers`: the list as it came back, with status 200. */
  function ListResult(c: Call<seq<User>>): (o: Outcome)
    ensures o.Respond? <==> c.Returned?
    ensures o.Respond? ==> o.response == Response(200, UserListJson(c.value))
    ensures c.Threw? ==> o == NextError(c.error)
  {
    match c
    case Threw(e) => NextError(e)
    case Returned(users) => Respond(Response(200, UserListJson(users)))
  }

  /** `getUserById` and `updateUser`: a user that came back is sent with status 200; undefined is a 404. */
  function UserResult(c: Call<Option<User>>): (o: Outcome)
    ensures o.Respond? <==> c.Returned? && c.value.Some?
    ensures o.Respond? ==> o.response == Response(200, UserJson(c.value.value))
    ensures c == Returned(None) ==> o == NextError(UserNotFound)
    ensures c.Threw? ==> o == NextError(c.error)
  {
    match c
    case Threw(e) => NextError(e)
    case Returned(None) => NextError(UserNotFound)
    case Returned(Some(u)) => Respond(Response(200, UserJson(u)))
  }

  /** `createUser`: the created user with status 201. */
  function CreatedResult(c: Call<User>): (o: Outcome)
    ensures o.Respond? <==> c.Returned?
    ensures o.Respond? ==> o.response == Response(201, UserJson(c.value))
    ensures c.Threw? ==> o == NextError(c.error)
  {
    match c
    case Threw(e) => NextError(e)
    case Returned(u) => Respond(Response(201, UserJson(u)))
  }

  /** `deleteUser`: true is an empty 204; false is a 404. */
  function DeletedResult(c: Call<bool>): (o: Outcome)
    ensures o.Respond? <==> c == Returned(true)
    ensures o.Respond? ==> o.response == Response(204, NoContent)
    ensures c == Returned(false) ==> o == NextError(UserNotFound)
    ensures c.Threw? ==> o == NextError(c.error)
  {
    match c
    case Threw(e) => NextError(e)
    case Returned(false) => NextError(UserNotFound)
    case Returned(true) => Respond(Response(204, NoContent))
  }

  // ---------------------------------------------------------------------
  // The handlers over the store

  /** `getAllUsers`: status 200 with exactly the store's current list, in insertion order. */
  function GetAllUsers(store: UserStore): (o: Outcome)
    reads store
    ensures o.Respond? && o.response.status == 200 && o.response.payload == UserListJson(store.users)
  {
    ListResult(Returned(store.GetAll()))
  }

  /**
   * `getUserById`: 200 with the stored user whose id `parseInt(params.id)`
   * gives, or a 404 when there is none. NaN (no validator ran) matches no
   * id, since `NaN === id` never holds.
   */
  function GetUserById(store: UserStore, req: Request): (o: Outcome)
    requires store.Valid()
    reads store, req
    ensures o.Respond? <==> ParseInt(req.idParam).Some? && HasId(store.users, ParseInt(req.idParam).value)
    ensures o.Respond? ==>
      && o.response.status == 200 && o.response.payload.UserJson?
      && o.response.payload.user in store.users
      && o.response.payload.user.id == ParseInt(req.idParam).value
    ensures !o.Respond? ==> o == NextError(UserNotFound)
  {
    match ParseInt(req.idParam)
    case None => UserResult(Returned(None))
    case Some(id) => UserResult(Returned(store.GetById(id)))
  }

  /** `createUser`: only `{ name, email }` of the body reach the store; the new user comes back with 201. */
  method CreateUser(store: UserStore, req: Request) returns (o: Outcome)
    requires store.Valid()
    requires req.body.name.Text? && req.body.email.Text?
    modifies store
    ensures store.Valid() && store.lastId == old(store.lastId) + 1
    ensures o.Respond? && o.response.status == 201 && o.response.payload.UserJson?
    ensures o.response.payload.user == User(store.lastId, req.body.name.s, req.body.email.s)
    ensures store.users == old(store.users) + [o.response.payload.user]
  {
    var newUser := store.Create(req.body.name.s, req.body.email.s);
    o := CreatedResult(Returned(newUser));
  }

  /** The update object of `updateUser`: a key for each body field that is not undefined, and no other. */
  function UpdateData(body: RequestBody): (p: Patch)
    requires !body.name.OtherType? && !body.email.OtherType?
    ensures p.name.None? <==> body.name.Absent?
    ensures p.email.None? <==> body.email.Absent?
    ensures p.name.Some? ==> p.name.value == body.name.s
    ensures p.email.Some? ==> p.email.value == body.email.s
  {
    var name := if body.name.Absent? then None else Some(body.name.s);
    var email := if body.email.Absent? then None else Some(body.email.s);
    Patch(name, email)
  }

  /**
   * `updateUser`: merges the fields the client sent into the stored user and
   * sends the result with 200; fields left out keep their stored values.
   * An unknown id is a 404 and changes nothing.
   */
  method UpdateUser(store: UserStore, req: Request) returns (o: Outcome)
    requires store.Valid()
    requires !req.body.name.OtherType? && !req.body.email.OtherType?
    modifies store
    ensures store.Valid() && store.lastId == old(store.lastId)
    ensures var id := ParseInt(req.idParam);
      if id.Some? && HasId(old(store.users), id.value) then
        var k := IndexOf(old(store.users), id.value);
        var u := Merge(old(store.users)[k], UpdateData(req.body));
        o == Respond(Response(200, UserJson(u))) && store.users == old(store.users)[k := u]
      else
        o == NextError(UserNotFound) && store.users == old(store.users)
  {
    var updateData := UpdateData(req.body);
    match ParseInt(req.idParam)
    case None =>
      o := UserResult(Returned(None));
    case Some(id) =>
      var updatedUser := store.Update(id, updateData);
      o := UserResult(Returned(updatedUser));
  }

  /** `deleteUser`: removes the user and answers an empty 204, or a 404 when no user has the id. */
  method DeleteUser(store: UserStore, req: Request) returns (o: Outcome)
    requires store.Valid()
    modifies store
    ensures store.Valid() && store.lastId == old(store.lastId)
    ensures var id := ParseInt(req.idParam);
      if id.Some? && HasId(old(store.users), id.value) then
        o == Respond(Response(204, NoContent)) && store.users == Without(old(store.users), id.value)
      else
        o == NextError(UserNotFound) && store.users == old(store.users)
  {
    match ParseInt(req.idParam)
    case None =>
      o := DeletedResult(Returned(false));
    case Some(id) =>
      var deleted := store.Delete(id);
      if !deleted {
        WithoutAbsent(old(store.users), id);
      }
      o := DeletedResult(Returned(deleted));
  }
}
