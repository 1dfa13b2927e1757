# User management API: the CRUD pipeline in Dafny

This project models the request pipeline of a small Express user-management
API, which keeps its users in memory:

- **The store.** `UserStore` (src/models/User.ts) is a table of users in
  insertion order plus a `lastId` counter. It is the class
  `Users.UserStore`, with a `seq<User>` field and a `nat` counter that its
  methods reassign in place. The class invariant `Valid()` says that ids
  strictly increase along the list and all lie in `1..lastId`. So ids are
  distinct, and a deleted id is never handed out again.
- **The validators.** `validateIdParam` and `validateUserInput`
  (src/middleware/validation.ts) are in module `Validation`.
  - The id check follows JavaScript's `parseInt` with no radix, in full: it
    skips leading whitespace, reads one sign, switches to base 16 after a
    "0x" prefix, reads the leading run of digits and ignores the rest. It
    gives NaN only when no digit follows.
  - `trim()` and the regex class `\s` use JavaScript's own whitespace set
    (WhiteSpace and LineTerminator).
  - `name.trim().length` counts UTF-16 code units, as JavaScript strings do:
    a character outside the Basic Multilingual Plane counts twice
    (`Validation.Utf16Length`). So a name made of one emoji passes the
    length rule (`Validation.AstralNameAccepted`).
  - The email regex `^[^\s@]+@[^\s@]+\.[^\s@]+$` becomes a declarative
    predicate, shown equal to the regex read character by character
    (`Validation.EmailPatternByCharacters`).
  - `validateUserInput` pushes its messages one rule at a time. It is
    proved equal to a function that lists every violated rule in the
    source's order.
- **The handlers.** The five handlers of src/controllers/UserController.ts
  are in module `Controller`. Each one's `try`/`catch` is a function from
  what the store call produced (`Call<T>`: a value, or the error it threw)
  to the single thing the handler does. The handlers that read are
  functions over the store; the ones that write are methods that modify it.
- **The error responders.** `ApiError`, `errorHandler` and
  `notFoundHandler` (src/middleware/errorHandler.ts) are in modules
  `Errors` and `ErrorHandler`. They are pure maps from an error and the
  `x-request-id` header to a status and a JSON body.
- **The routes.** The five routes of src/routes/userRoutes.ts are in
  module `Routes`. Each one chains the middlewares in the source's order:
  on PUT the id check runs before the body check. Each ends in what
  src/app.ts mounts after the router. Their contracts state, end to end,
  what the client receives and what the table becomes.

The routes also keep one more invariant, `Routes.WellFormedUsers`: every
stored name is at least two UTF-16 code units long once trimmed, and every
stored email has the `local@domain.tld` form. The store does not check this. The validators
in front of it do, and `Post`, `Put` and `Delete` each preserve it.

Three behaviours of the code are worth stating plainly:

- A fractional or trailing-garbage id is accepted. `parseInt` reads "1.5"
  as 1 and "12abc" as 12 (`Validation.ParseIntStopsAtPoint`,
  `Validation.ParseIntStopsAtLetter`).
- The id is parsed twice. The id check writes the number's decimal numeral
  back into `params.id`, and every handler calls `parseInt` on it again.
  The second parse gives the same number (`Validation.ParseIntRoundTrip`).
- The swagger comment for DELETE documents status 200. The handler sends
  204 with an empty body. The model follows the handler.

Files: `wrappers.dfy` (Option), `users.dfy`, `errors.dfy`, `http.dfy`
(the request and response shapes the handlers see), `validation.dfy`,
`controller.dfy`, `routes.dfy`.

## Model

| member | source | states |
|---|---|---|
| Users.IndexOf | src/models/User.ts:66-67 | `findIndex`: -1 exactly when no entry has the id; otherwise the first position holding it |
| Users.Find | src/models/User.ts:54-56 | `find`: some entry exactly when the id is present; the entry found carries the id, is in the list, and is the one at `IndexOf` |
| Users.FindIsTheOnly | src/models/User.ts:54-56 | with distinct ids, the entry found is the only entry with that id |
| Users.FindAppended | src/models/User.ts:58-63 | a record appended with an id above every stored id is exactly what a lookup of that id returns (create, then getById) |
| Users.Without | src/models/User.ts:75 | `filter(user => user.id !== id)`: keeps exactly the entries whose id differs; the length shrinks exactly when the id was present |
| Users.WithoutAbsent | src/models/User.ts:73-77 | filtering out an id nobody has leaves the list unchanged |
| Users.WithoutAppend | src/models/User.ts:75 | filtering a concatenation filters each part |
| Users.WithoutRemovesOne | src/models/User.ts:73-77 | with distinct ids, deleting the id at position k gives `users[..k] + users[k+1..]`: that entry goes, the rest keep their order |
| Users.WithoutKeepsIncreasing | src/models/User.ts:75 | filtering keeps the ids in creation order |
| Users.Merge | src/models/User.ts:69 | `{ ...user, ...userData }`: the id is kept, a field present in the patch overrides, an absent one keeps the stored value |
| Users.MergeIdempotent | src/models/User.ts:69 | applying the same patch twice is the same as once; the empty patch changes nothing |
| Users.UserStore.constructor | src/models/User.ts:47-48 | a fresh table is empty with `lastId` 0, and is valid |
| Users.UserStore.GetAll | src/models/User.ts:50-52 | returns the table's own list, in insertion order |
| Users.UserStore.GetById | src/models/User.ts:54-56 | returns some entry exactly when the id is stored; it carries the id, is stored, and is the only such entry; reads only |
| Users.UserStore.Create | src/models/User.ts:58-63 | bumps `lastId` by one and appends `{id: lastId, name, email}` at the end; the new id is above every stored id; the invariant is kept |
| Users.UserStore.Update | src/models/User.ts:65-71 | undefined, and no change, exactly when the id is absent; otherwise replaces the first entry with that id by the merge, in place, and returns it; `lastId` and the invariant are kept |
| Users.UserStore.Delete | src/models/User.ts:73-77 | true exactly when some entry had the id; the table becomes the filtered list, without the id; `lastId` and the invariant are kept |
| Users.StoreLifecycle | src/__tests__/models/User.test.ts:31-99 | from a fresh table, the first id is 1; the created record is what getById returns; deleting it gives true, then false; the next id is 2, so the deleted id is not reused |
| Errors.NewApiError | src/middleware/errorHandler.ts:5-13 | `new ApiError(s, m)` has status `s`, message `m` and name 'ApiError' |
| ErrorHandler.RequestId | src/middleware/errorHandler.ts:17 | the `x-request-id` header when it is a non-empty string, else 'unknown'; never empty |
| ErrorHandler.HandleError | src/middleware/errorHandler.ts:16-38 | an ApiError keeps its status, and its body is `{error: 'ApiError', message, requestId}`; anything else is a 500 with the fixed InternalServerError body; every body carries the request id |
| ErrorHandler.InternalErrorsIndistinguishable | src/middleware/errorHandler.ts:32-37 | two unexpected errors give the same response, so nothing of the original error reaches the client |
| ErrorHandler.NotFound | src/middleware/errorHandler.ts:41-50 | an unmatched route answers 404 with `{error: 'NotFound', message: 'The requested resource does not exist', requestId}` |
| ErrorHandler.TwoKindsOfNotFound | src/middleware/errorHandler.ts:41-50 | an unknown route and an unknown user share status 404 but not the body |
| Validation.IsSpace | src/middleware/validation.ts:30 | the characters `trim()` removes and `\s` matches: JavaScript's WhiteSpace and LineTerminator set; all of them lie in the Basic Multilingual Plane |
| Validation.TrimStart | src/middleware/validation.ts:30 | a suffix of the input: only whitespace was dropped, and what is left does not start with whitespace |
| Validation.TrimEnd | src/middleware/validation.ts:30 | a prefix of the input: only whitespace was dropped, and what is left does not end with whitespace |
| Validation.Trim | src/middleware/validation.ts:30 | `trim()`: never longer than the input; empty exactly when every character is whitespace; otherwise starts and ends with a non-whitespace character |
| Validation.Utf16Length | src/middleware/validation.ts:30 | `length` of a JavaScript string: between the number of characters and twice that, and 0 only for the empty string; character by character it is fixed by `Utf16LengthAppend` and `Utf16LengthOfChar` |
| Validation.Utf16LengthAppend | src/middleware/validation.ts:30 | the code-unit length of a concatenation is the sum of the lengths |
| Validation.Utf16LengthOfChar | src/middleware/validation.ts:30 | one character is one code unit, or two exactly when it lies outside the Basic Multilingual Plane |
| Validation.Utf16LengthAtLeastTwo | src/middleware/validation.ts:30 | a string is at least two code units long exactly when it has two characters, or one character outside the Basic Multilingual Plane |
| Validation.TrimmedLengthAtLeastTwo | src/middleware/validation.ts:30 | the trimmed name has two characters exactly when it has two non-whitespace characters; `name.trim().length >= 2`, in UTF-16 code units, exactly when it has two non-whitespace characters or one outside the Basic Multilingual Plane |
| Validation.PostPasses | src/middleware/validation.ts:14-45 | a POST whose name string is long enough and whose email string matches the pattern has no violation |
| Validation.AstralNameAccepted | src/middleware/validation.ts:27-33 | the one-emoji name "😀" is two code units long once trimmed, so a POST with it and "a@b.co" has no violation |
| Validation.MatchesEmailPattern | src/middleware/validation.ts:40-41 | `emailRegex.test(email)`: a match is at least five characters long (the three runs, '@' and '.') |
| Validation.EmailExamples | src/middleware/validation.ts:40-41 | the pattern accepts "test@example.com" and rejects "invalid-email" and "x" |
| Validation.EmailPatternByCharacters | src/middleware/validation.ts:40-41 | the predicate accepts exactly what the regex accepts read character by character: an '@' and a later '.' split the string into three non-empty runs, and every other character is neither whitespace nor '@' |
| Validation.LeadingDigits | src/middleware/validation.ts:63 | the longest prefix made only of digits of the radix: everything in it is a digit, and the next character is not |
| Validation.ParseIntNaN | src/middleware/validation.ts:63-66 | `parseInt` is NaN exactly when no digit follows the whitespace, the sign and any "0x" prefix |
| Validation.ParseInt | src/middleware/validation.ts:63 | `parseInt(s)`: the leading whitespace is dropped and the rest read by `ParseTrimmed`; a negative result only comes from a '-' after the whitespace. The lemmas below state the whitespace, the two signs, decimal numerals with any tail and the NaN case; base 16 is stated by one example only |
| Validation.ParseTrimmed | src/middleware/validation.ts:63 | `parseInt` after the whitespace: one sign, then the unsigned digits; negative only after a '-' |
| Validation.TrimStartSkipsSpace | src/middleware/validation.ts:63 | a run of whitespace put in front of a string is all dropped by the leading trim |
| Validation.ParseIntSkipsSpace | src/middleware/validation.ts:63 | `parseInt(ws + t) == parseInt(t)` for every run `ws` of whitespace |
| Validation.ParseIntDecimal | src/middleware/validation.ts:63 | decimal digits, leading zeros allowed, then a tail that is not a digit: `parseInt` gives the value of the digits ("007abc" is 7) |
| Validation.ParseIntPlus | src/middleware/validation.ts:63 | after a leading '+', the digits read are kept as they are |
| Validation.NatToString | src/middleware/validation.ts:71 | `toString()` of a natural number: non-empty, only decimal digits, no leading zero |
| Validation.NatToStringValue | src/middleware/validation.ts:71 | the digits of `toString()` denote the number |
| Validation.IntToString | src/middleware/validation.ts:71 | `id.toString()`: non-empty, and starts with '-' exactly when the number is negative |
| Validation.ParseUnsignedDecimal | src/middleware/validation.ts:63 | decimal digits followed by a non-digit: exactly the digits are read |
| Validation.ParseUnsignedNumeral | src/middleware/validation.ts:63-71 | reading back a natural number's numeral, after the sign, gives the number |
| Validation.ParseNaturalNumeral | src/middleware/validation.ts:63-71 | `parseInt` of a natural number's numeral followed by a non-digit gives the number |
| Validation.ParseIntNegated | src/middleware/validation.ts:63 | after a leading '-', the digits read are negated |
| Validation.ParseNegativeNumeral | src/middleware/validation.ts:63-71 | `parseInt` of '-' and a positive number's numeral, then a non-digit, gives the negative number |
| Validation.ParseIntReadsNumeral | src/middleware/validation.ts:63-71 | `parseInt(n.toString() + tail) == n` for every integer `n` and every tail that does not start with a decimal digit (nor, when `n` is 0, with 'x' or 'X', which would make a hex prefix) |
| Validation.ParseIntRoundTrip | src/middleware/validation.ts:63-71 | the number written back into `params.id` parses to itself, so the handler's second `parseInt` gets the validated id |
| Validation.ParseIntStopsAtLetter | src/middleware/validation.ts:63-66 | "12abc" parses to 12: the trailing letters are ignored |
| Validation.ParseIntStopsAtPoint | src/middleware/validation.ts:63-66 | "1.5" parses to 1: a fractional id is not rejected |
| Validation.ParseIntNoDigits | src/middleware/validation.ts:63-66 | "abc" and "" are NaN |
| Validation.ParseIntHex | src/middleware/validation.ts:63 | "0x1A" parses to 26: a hex prefix switches to base 16 |
| Validation.ValidateIdParam | src/middleware/validation.ts:61-77 | fails with `ApiError(400, 'Invalid ID format')`, leaving `params.id` unchanged, exactly when `parseInt` is NaN; otherwise writes the number's decimal numeral back and calls `next()`, and the numeral parses to the same number |
| Http.BodyValue.IsFalsy | src/middleware/validation.ts:15-21 | `!value`: an absent field is falsy, and a string is falsy exactly when it is empty |
| Validation.RequiredViolations | src/middleware/validation.ts:14-24 | at most two messages; none exactly when, on POST, both fields are truthy and, on PUT, at least one is; 'Name is required' (first) and 'Email is required' (last) appear exactly on POST with that field falsy; the update message appears exactly on PUT with both fields falsy; other methods get none |
| Validation.NameViolations | src/middleware/validation.ts:27-33 | at most one message; none exactly when the name is absent or a string at least two UTF-16 code units long once trimmed; 'Name must be a string' exactly when it is not a string; 'Name must have at least 2 characters' exactly when it is a string that is too short |
| Validation.PushNameErrors | src/middleware/validation.ts:27-33 | the name block appends exactly the name's violations to the messages collected so far |
| Validation.EmailViolations | src/middleware/validation.ts:36-45 | at most one message; none exactly when the email is absent or matches the pattern; 'Email must be a string' exactly when it is not a string; 'Invalid email format' exactly when it is a string that fails the pattern |
| Validation.Violations | src/middleware/validation.ts:14-45 | at most four messages; none exactly when the presence rules hold, the name is acceptable and the email is acceptable |
| Validation.PostAcceptance | src/middleware/validation.ts:14-45 | a POST body passes exactly when both fields are strings, the trimmed name is at least two UTF-16 code units long and the email matches the pattern |
| Validation.PutAcceptance | src/middleware/validation.ts:20-45 | a PUT body passes exactly when some field is a string and every present field is a string satisfying its rule |
| Validation.PostAccepted | src/middleware/validation.ts:14-45 | a POST body that passed has two string fields, a name at least two UTF-16 code units long once trimmed and an email matching the pattern |
| Validation.PutAccepted | src/middleware/validation.ts:20-45 | a PUT body that passed has no field of another type, and every present field satisfies its rule |
| Validation.EmptyBodyMessages | src/middleware/validation.ts:14-24 | an empty POST body gives 'Name is required' then 'Email is required'; an empty PUT body gives only the update message |
| Validation.Join | src/middleware/validation.ts:48 | `errors.join('; ')`: empty for no parts; otherwise starts with the first part |
| Validation.JoinEndsWithLast | src/middleware/validation.ts:48 | the joined message ends with the last part |
| Validation.JoinContainsEach | src/middleware/validation.ts:48 | every collected message occurs in the joined message |
| Validation.JoinSplitRoundTrip | src/middleware/validation.ts:48 | messages without ';', joined with "; ", split back into the same list |
| Validation.MessagesUnsplittable | src/middleware/validation.ts:15-42 | none of the seven messages the validator can push holds a ';' |
| Validation.ViolationsUnsplittable | src/middleware/validation.ts:14-45 | no message in the list of violations holds a ';' |
| Validation.ViolationsSplitBack | src/middleware/validation.ts:14-48 | the 400 message of a rejected body, cut at every "; ", gives back exactly the list of violations |
| Validation.ShortNameAndBadEmail | src/middleware/validation.ts:30-48 | a one-letter name and the email "x" on POST give 'Name must have at least 2 characters; Invalid email format' |
| Validation.ValidateUserInput | src/middleware/validation.ts:8-55 | calls `next()` exactly when no rule is broken; otherwise passes one `ApiError(400, …)` whose message is every violated rule's message, in the source's order, joined with "; " |
| Controller.ListResult | src/controllers/UserController.ts:7-14 | responds exactly when the store returned, with 200 and the list; a thrown error goes to `next` unchanged |
| Controller.UserResult | src/controllers/UserController.ts:17-63 | responds exactly when a user came back, with 200 and that user; undefined becomes `ApiError(404, 'User not found')`; a thrown error goes to `next` unchanged |
| Controller.CreatedResult | src/controllers/UserController.ts:33-41 | responds exactly when the store returned, with 201 and the created user; a thrown error goes to `next` unchanged |
| Controller.DeletedResult | src/controllers/UserController.ts:67-80 | responds exactly on true, with an empty 204; false becomes `ApiError(404, 'User not found')`; a thrown error goes to `next` unchanged |
| Controller.GetAllUsers | src/controllers/UserController.ts:7-10 | responds 200 with exactly the store's current list |
| Controller.GetUserById | src/controllers/UserController.ts:17-30 | responds exactly when the parsed id is stored, with 200 and the stored user carrying it; otherwise `ApiError(404, 'User not found')`, without writing a body |
| Controller.CreateUser | src/controllers/UserController.ts:33-41 | passes only name and email to the store; responds 201 with `{id: lastId + 1, name, email}`, which is appended to the table |
| Controller.UpdateData | src/controllers/UserController.ts:50-52 | the update object has a key for a field exactly when the body field is not undefined, with the body's value |
| Controller.UpdateUser | src/controllers/UserController.ts:44-64 | for a stored id, responds 200 with the merged user, which replaces the entry in place; otherwise a 404 and the table is unchanged |
| Controller.DeleteUser | src/controllers/UserController.ts:67-80 | for a stored id, responds with an empty 204 and the table is filtered; otherwise a 404 and the table is unchanged |
| Routes.Finish | src/app.ts:30-36 | a written response is what the client gets; `next(err)` reaches `errorHandler`; a bare `next()` reaches `notFoundHandler` |
| Routes.ApiErrorFinish | src/middleware/errorHandler.ts:19-26 | an `ApiError` passed to `next` reaches the client as its status and the `{error: 'ApiError', message, requestId}` body |
| Routes.GetList | src/routes/userRoutes.ts:23 | `GET /api/users` answers 200 with the whole table |
| Routes.GetOne | src/routes/userRoutes.ts:50 | `GET /api/users/:id`: a 400 'Invalid ID format' body for a NaN id; else 200 with the stored user carrying the id, or the 404 'User not found' body; `params.id` is left as it was for a NaN id, else rewritten to the parsed number's numeral |
| Routes.Post | src/routes/userRoutes.ts:82 | `POST /api/users`: a body with violations gets the 400 body listing them, and the table and counter are untouched; else 201 with the user created under the next id, appended; well-formedness of the table is kept |
| Routes.CreateAccepted | src/routes/userRoutes.ts:82 | once the body has passed, `createUser` answers 201 with `{id: lastId + 1, name, email}`, appends it, bumps the counter, and keeps the table well formed |
| Routes.AppendKeepsWellFormed | src/routes/userRoutes.ts:82 | appending a user whose name and email pass the validators keeps every stored user well formed |
| Routes.Put | src/routes/userRoutes.ts:120 | `PUT /api/users/:id`: the id check comes first, then the body check, each a 400 with the table untouched; then 200 with the merged user replacing the stored one in place, or 404; well-formedness of the table is kept; `params.id` is left as it was for a NaN id, else rewritten to the parsed number's numeral |
| Routes.PutValidId | src/routes/userRoutes.ts:120 | after the id check has passed: a body with violations gets the 400 body listing them and the table is untouched; else the stored user is merged in place with 200, or the 404 body when the id is not stored; the counter never moves |
| Routes.UpdateAccepted | src/routes/userRoutes.ts:120 | once id and body have passed, `updateUser` answers 200 with the merge placed at the stored user's position, or the 404 body with the table untouched; well-formedness is kept |
| Routes.UpdateKeepsWellFormed | src/routes/userRoutes.ts:120 | merging an accepted PUT body into one stored user keeps every user well formed |
| Routes.Delete | src/routes/userRoutes.ts:143 | `DELETE /api/users/:id`: a 400 for a NaN id, an empty 204 with the user filtered out, or the 404 body with the table untouched; well-formedness is kept; `params.id` is left as it was for a NaN id, else rewritten to the parsed number's numeral |

## Left out

- Express itself is not modelled: HTTP transport, JSON body parsing, routing by path, `listen` and the signal handlers (src/app.ts, src/server.ts). Each route is a method called with the already-parsed request.
- Logging is left out, because it has no effect on responses: the winston logger, the morgan tokens, and the `logger.*` calls in errorHandler.ts.
- Request-id generation in src/middleware/requestLogger.ts is not part of this model, because it uses the clock and `Math.random`. The `x-request-id` header is an input (`Option<string>`). `addRequestId` (src/middleware/requestLogger.ts:39-41), mounted first in src/app.ts:12, fills the header in whenever it is absent or empty. So in the running app the 'unknown' fallback of `ErrorHandler.RequestId` never shows. The model keeps that fallback as the handler writes it: 'unknown' for an absent or an empty header.
- Strings are sequences of Unicode scalar values. A lone surrogate, which a JSON body may carry, cannot be given to the model. `length` is counted in UTF-16 code units (`Validation.Utf16Length`). The email regex has no `u` flag and so reads code units, but its classes only single out whitespace, '@' and '.', all in the Basic Multilingual Plane. So it gives the same answer on characters as on code units.
- The `User` class (src/models/User.ts:33-43) is left out: its default id comes from `Date.now()`, and the store never uses it.
- Numbers are unbounded. The model does not capture float precision, overflow or exponent notation in `parseInt`, `toString` or `++lastId`: above 2^53 the source loses precision, and from 1e21 `toString` writes an exponent.
- Validation.ParseInt: base 16 after a "0x" prefix is defined like base 10 but stated only by the example `ParseIntHex`; no lemma gives the value of a general hex numeral.
- Users.UserStore.GetAll: returns the list as a value. The source returns the store's own array, so a caller could mutate the store through it; that aliasing is not modelled.
- A request body that is not an object, and an `x-request-id` header that is an array, are left out. A body field is absent, a string, or some other value known only by its truthiness.
- Controller.CreateUser, Controller.UpdateUser: require string (or absent) body fields. That is what `validateUserInput` guarantees on every route that reaches them. Called directly with other types, the source would store non-strings; the model does not cover that.
- Controller.GetUserById, Controller.UpdateUser, Controller.DeleteUser: when `parseInt` gives NaN, the model skips the store call and answers 404. NaN matches no id (`NaN === id` is false), so this is the same result as the source, which calls the store with NaN. The validator in front of these handlers already rules NaN out on every route.
- Routes.Post, Routes.Put: require the request method to be POST or PUT. The router only sends those methods there, and `validateUserInput` branches on the method.
- The store methods here cannot throw. A thrown error enters only through `Controller.Call`, in the four result functions (`ListResult`, `UserResult`, `CreatedResult`, `DeletedResult`). The handlers over the store therefore always build a `Returned` value.
