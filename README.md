# twitter-fastapi-mysql: a verified model of the request handlers

This project models the core of a small social-media backend: the user and
tweet endpoints, treated as operations on an in-memory store of two tables.

- `users` and `tweets` are maps from integer id to row (`Tables.UserRow`,
  `Tables.TweetRow`). They are fields of the class `Tables.Database`, whose
  methods are the SQL statements the routes issue: insert with an
  auto-increment id, update by id, and delete by id. Ids come from a counter
  per table. So a new id is never one that is already stored, and ids are
  never reused.
- The payload models (`UserModel`, `TweetModel`) are datatypes with validity
  predicates for the declared field constraints. Names are 1 to 50
  characters, the password 8 to 64 and tweet content 1 to 256. A request body
  is modelled as it arrives, with every key optional, and the `Parse*`
  functions validate it the way the framework does before a handler runs. A
  failure reports the set of field names that failed.
- Read-only handlers are functions of the table contents. These are
  `get_*_by_ID`, the ownership guard, `to_TweetOut` and the `show_*` handlers.
  Handlers that change the tables are methods with `modifies db`. Their
  postconditions give the new tables in terms of the old ones, and what they
  return in terms of the read-only functions.
- Responses are projected to `UserOut` (`UserRoutes.ToUserOut`), and `UserOut`
  has no password field. The lemmas `UserViewsIgnorePasswords` and
  `TweetViewsIgnorePasswords` state this as non-interference: two stores that
  differ only in passwords give identical answers to every read.

Behaviour that follows the code, where a design reading might expect otherwise:

- A tweet whose owner row is gone fails assembly with `UserNotFound` ('User ID
  not found', 404). There is no separate integrity error.
- `post_tweet` builds its response without `created_at`, so `TweetOut`'s class
  default fills it in. That default is the time the class was defined, not
  the stored timestamp. `PostTweet` takes that default as `defaultCreatedAt`
  and proves that a later `ShowATweet` of the new id returns the response
  with `createdAt` replaced by the stored `now`. Every other field is equal.
- The body is validated before any lookup. An invalid body sent to a missing
  user gives `Unprocessable`, not `UserNotFound`.
- `update_user` runs its UPDATE even when the id is missing. The UPDATE then
  matches no row, and the re-fetch fails with `UserNotFound`.

Run `dafny verify` on all the `.dfy` files together.

## Model

| member | source | states |
|---|---|---|
| `UserModel.ParseUserBase` | models/user.py:8-20 | a body is accepted iff email is present and accepted by EmailStr and both names are present with length in [1, 50]; the accepted value carries EmailStr's normal form of the email, the names unchanged, and birth_date None when omitted; it meets UserBase's constraints when EmailStr accepts its own normal forms; a rejection names exactly the failing fields |
| `UserModel.ParseUserRegister` | models/user.py:25-30 | accepted iff the base fields are accepted and the password is present with length in [8, 64]; the value is the parsed base plus the plaintext password; a rejection names exactly the failing fields: each of email, first_name, last_name and password iff it failed |
| `UserRoutes.PasswordIsPrivate` | models/user.py:22-23 | changing a stored password leaves the public view (every UserOut projection) of the table unchanged |
| `TweetModel.ParseTweetIn` | models/tweet.py:11-16 | a body is accepted iff content is present with length in [1, 256]; lengths 0 and 257 are rejected; the accepted value carries the content unchanged |
| `Tables.AscendingIds` | routes/user.py:101 | the row order of a SELECT without ORDER BY is modelled as ascending ids: every id of the table exactly once, strictly increasing |
| `Tables.OwnedBy` | routes/tweet.py:173 | the tweets selected by `user_id == owner` are exactly the stored tweets with that owner, unchanged |
| `Tables.Database.constructor` | tables/user.py:7-15 | both tables start empty and auto-increment starts at 1 |
| `Tables.Database.InsertUser` | routes/user.py:72 | adds exactly one row under a fresh id (the counter) and changes nothing else |
| `Tables.Database.UpdateUser` | routes/user.py:191-196 | overwrites email, names and birth date of the row with that id, if any; id and password stay |
| `Tables.Database.DeleteUser` | routes/user.py:158 | removes that id from `users` and leaves `tweets` alone |
| `Tables.Database.InsertTweet` | routes/tweet.py:102-107 | adds exactly one tweet under a fresh id and changes nothing else |
| `Tables.Database.UpdateTweet` | routes/tweet.py:243-246 | sets content and updated_at of that tweet, if present; nothing else changes |
| `Tables.Database.DeleteTweet` | routes/tweet.py:284 | removes exactly that id from `tweets` |
| `UserRoutes.ToUserOut` | routes/user.py:46 | the `response_model=UserOut` filter: a stored user is answered with its email, names, birth date and id, and nothing else (no password) |
| `UserRoutes.ProjectAll` | routes/user.py:80 | the `List[UserOut]` filter: one projection per row, same length, same order |
| `Tables.Scan` | routes/user.py:101 | `fetchall()` / `.all()` of a whole table: one row per stored id, each the row stored under that id, in ascending id order |
| `Errors.StatusCode` | routes/tweet.py:27-62 | 'User ID not found' and 'Tweet ID not found' answer 404, the ownership failure 400, and a body validation failure 422, each code for exactly those errors |
| `UserRoutes.GetUserByID` | routes/user.py:26-34 | returns the stored row iff the id is present, otherwise fails with UserNotFound |
| `UserRoutes.ShowUser` | routes/user.py:112-129 | get_user_by_ID projected to UserOut: succeeds iff the user exists; the output carries the stored base fields and the requested id |
| `UserRoutes.ShowAllUsers` | routes/user.py:85-101 | one UserOut per stored user: as many outputs as users, every user's projection present, each output the projection of the user its id names, ids strictly increasing |
| `UserRoutes.UserViewsIgnorePasswords` | routes/user.py:44-46 | two user tables that differ only in passwords give identical listings and identical single-user answers |
| `UserRoutes.UserViewsMeetResponseModel` | models/user.py:22-23 | when every stored user meets the UserBase constraints, every user response is a valid UserOut |
| `UserRoutes.CreateUser` | routes/user.py:51-74 | an invalid body fails and changes nothing; otherwise exactly one user is added under a fresh id, with the password stored as `encrypt(password)`; tweets are unchanged; the response is the row read back by that id and carries the parsed base fields; stored-row validity is preserved when EmailStr accepts its own normal forms |
| `UserRoutes.DeleteUser` | routes/user.py:139-160 | answers what ShowUser answered before the call; a missing id fails and changes nothing; only that user is removed; tweets (including that user's) are untouched |
| `UserRoutes.UpdateUser` | routes/user.py:170-198 | an invalid body fails and changes nothing; a missing id changes no row and fails with UserNotFound; otherwise only that user's email, names and birth date change, its id and password are kept, all other users and all tweets are unchanged, and the response is the new base fields with that id; stored-row validity is preserved when EmailStr accepts its own normal forms |
| `TweetRoutes.GetTweetByID` | routes/tweet.py:22-30 | returns the stored row iff the id is present, otherwise fails with TweetNotFound |
| `TweetRoutes.ToTweetOut` | routes/tweet.py:44-54 | succeeds iff the owner exists, else UserNotFound; copies id, content, created_at and updated_at unchanged and embeds the owner's UserOut |
| `TweetRoutes.CheckExistenceAndRelation` | routes/tweet.py:56-64 | a missing user gives UserNotFound whatever the tweet; then a missing tweet gives TweetNotFound; then an owner mismatch gives NotOwner; with rows keyed by id it passes iff both exist and the tweet's user_id equals the path user |
| `TweetRoutes.AssembleAll` | routes/tweet.py:143 | the comprehension succeeds iff every row's owner exists, and then yields one output per row, in order, each the assembly of its row |
| `TweetRoutes.AssembleScanOk` | routes/tweet.py:141-143 | assembling a whole table succeeds iff every stored tweet's owner exists |
| `TweetRoutes.AssembleScanLists` | routes/tweet.py:141-145 | a successful assembly of a whole table lists every row's assembly exactly once, in ascending id order, and nothing else |
| `TweetRoutes.ShowAllTweets` | routes/tweet.py:125-145 | fails with UserNotFound iff some stored tweet has no owner; otherwise lists every stored tweet's assembly exactly once |
| `TweetRoutes.ShowUserTweets` | routes/tweet.py:156-176 | fails iff the path user is missing; otherwise lists exactly the tweets whose user_id is that user, each once, each embedding that user |
| `TweetRoutes.ShowATweet` | routes/tweet.py:187-204 | a missing tweet gives TweetNotFound; otherwise the assembly of the stored tweet, which succeeds iff its owner exists and carries the requested id |
| `TweetRoutes.DeleteUserOrphansTweets` | routes/user.py:156-160 | after a user is removed, a tweet it owned still exists but showing it, and listing all tweets, fail with UserNotFound |
| `TweetRoutes.AssembleAllIgnoresPasswords` | routes/tweet.py:52 | assembling rows gives the same result for two user tables that differ only in passwords |
| `TweetRoutes.TweetViewsIgnorePasswords` | models/tweet.py:20 | every tweet view (all, by user, by id) is the same for two user tables that differ only in passwords: the embedded owner never reveals one |
| `TweetRoutes.TweetViewsMeetResponseModel` | models/tweet.py:18-22 | when stored rows meet the payload constraints, every tweet response (all tweets, one user's tweets, one tweet) meets TweetOut's: content length in [1, 256] and a valid embedded UserOut |
| `TweetRoutes.PostTweet` | routes/tweet.py:76-114 | an invalid body, then a missing user, fail and change nothing; otherwise exactly one tweet is added under a fresh id with the input content, created_at `now`, updated_at None and the path user as owner; users and other tweets are unchanged; the response has the input content, the new id, the path user, updated_at None and the class-default created_at; showing the new id afterwards gives the same response except created_at, which is `now` |
| `TweetRoutes.UpdateTweet` | routes/tweet.py:215-248 | an invalid body, then a failed guard, fail with that error and change nothing; otherwise only that tweet's content (to the input) and updated_at (to `now`) change, its created_at and owner stay, users are unchanged, and the response is the tweet as now shown |
| `TweetRoutes.DeleteTweet` | routes/tweet.py:259-286 | a failed guard fails with the guard's error and changes nothing; otherwise the response is the tweet as shown before deletion, exactly that id is removed, a later fetch gives TweetNotFound, and users are unchanged |

## Left out

- Database connection, configuration and schema creation (config/db.py, `meta.create_all`): I/O. The tables are in-memory maps.
- Router wiring (main.py), HTTP status codes and routing: the handlers return an `Error` value. `Errors.StatusCode` gives the status of each error.
- Path-parameter parsing: a non-integer id is rejected by the framework. Ids here are already integers.
- Column widths (`String(50)`, `String(255)`, `String(256)`) and the database's foreign-key enforcement. The model lets a user be deleted while it still owns tweets.
- Fernet encryption and its process-wide key: `encrypt` is an opaque function parameter of `CreateUser`.
- The EmailStr grammar and its normalisation: an opaque parameter `emailStr`, which rejects an address (None) or accepts it and gives its normal form. The model stores and answers that normal form but does not spell out the rewrite (trimming, dropping a display name, lower-casing the domain).
- UserRoutes.CreateUser, UserRoutes.UpdateUser: stored-row validity is preserved only under `EmailStrStable` (EmailStr accepts its own normal forms and leaves them unchanged), because the normal form is what gets stored; the real validator has this property but the opaque parameter need not.
- The response model re-validates a stored email on the way out; the model answers the stored email as is, which under `EmailStrStable` is what re-validation gives.
- `datetime.now()`: the parameter `now`. TweetOut's class-level created_at default is the parameter `defaultCreatedAt`. Dates and timestamps are opaque integers.
- Pydantic's coercion of non-string JSON values and the exact text of its error responses: a body's fields are already strings, and a validation error carries only the failing field names.
- Response-model validation failing on a stored row that breaks a constraint (a 500): not modelled as an error path. `UserViewsMeetResponseModel` and `TweetViewsMeetResponseModel` show it cannot happen while the stored rows stay valid, and every mutating handler preserves that.
- The order of rows from a SELECT without ORDER BY is not fixed by the source. The model assumes ascending id.
- The race between the ownership guard and the following update or delete: concurrency, outside this sequential model.
- `get_user_by_ID` appears in both routes/user.py and routes/tweet.py with the same body. It is modelled once, as `UserRoutes.GetUserByID`.
