/** The user endpoints: register, list, show, delete and update a user.
    Every response is projected to UserOut, which has no password field. */
module UserRoutes {
  import opened Wrappers
  import opened Errors
  import opened UserModel
  import opened Tables

  /** Fetches a user row by id, failing with 'User ID not found'. */
  function GetUserByID(users: map<int, UserRow>, id: int): (r: Result<UserRow, Error>)
    ensures r.Ok? <==> id in users
    ensures r.Ok? ==> r.value == users[id]
    ensures r.Err? ==> r.error == UserNotFound
  {
    if id in users then Ok(users[id]) else Err(UserNotFound)
  }

  /** The response-model projection of a user row: every column but the password. */
  function ToUserOut(u: UserRow): (r: UserOut)
    ensures r.base.email == u.email && r.base.firstName == u.firstName && r.base.lastName == u.lastName
    ensures r.base.birthDate == u.birthDate && r.id == Some(u.id)
  {
    UserOut(BaseOf(u), Some(u.id))
  }

  /** Two user tables that differ at most in their passwords. */
  predicate SamePublicView(users1: map<int, UserRow>, users2: map<int, UserRow>)
  {
    users1.Keys == users2.Keys && forall k :: k in users1 ==> ToUserOut(users1[k]) == ToUserOut(users2[k])
  }

  /** GET /users/{user_id}: the stored user, without its password. */
  function ShowUser(users: map<int, UserRow>, userId: int): (r: Result<UserOut, Error>)
    ensures r.Ok? <==> userId in users
    ensures r.Err? ==> r.error == UserNotFound
    ensures r.Ok? ==> r.value.base == BaseOf(users[userId]) && r.value.id == Some(users[userId].id)
    ensures r.Ok? && UsersKeyed(users) ==> r.value.id == Some(userId)
  {
    match GetUserByID(users, userId)
    case Ok(u) => Ok(ToUserOut(u))
    case Err(e) => Err(e)
  }

  /** GET /users: every stored user once, in ascending id order, without passwords. */
  function ShowAllUsers(users: map<int, UserRow>): (r: seq<UserOut>)
    ensures |r| == |users|
    ensures forall k :: k in users ==> ToUserOut(users[k]) in r
    ensures UsersKeyed(users) ==> forall i :: 0 <= i < |r| ==>
      r[i].id.Some? && r[i].id.value in users && r[i] == ToUserOut(users[r[i].id.value])
    ensures UsersKeyed(users) ==> forall i, j :: 0 <= i < j < |r| ==>
      r[i].id.Some? && r[j].id.Some? && r[i].id.value < r[j].id.value
  {
    var ids := AscendingIds(users.Keys);
    var outs := ProjectAll(Scan(users));
    assert forall k :: k in users ==> ToUserOut(users[k]) in outs by {
      forall k | k in users ensures ToUserOut(users[k]) in outs {
        var i :| 0 <= i < |ids| && ids[i] == k;
        assert outs[i] == ToUserOut(users[k]);
      }
    }
    outs
  }

  /** The response-model projection applied to each row of a listing. */
  function ProjectAll(rows: seq<UserRow>): (outs: seq<UserOut>)
    ensures |outs| == |rows|
    ensures forall i :: 0 <= i < |rows| ==> outs[i] == ToUserOut(rows[i])
  {
    seq(|rows|, i requires 0 <= i < |rows| => ToUserOut(rows[i]))
  }

  /** Changing one user's password is invisible to every user view. */
  lemma PasswordIsPrivate(users: map<int, UserRow>, userId: int, password: string)
    requires userId in users
    ensures SamePublicView(users, users[userId := users[userId].(password := password)])
  {
  }

  /** Tables that agree on all but passwords give the same answers to
      GET /users and GET /users/{user_id}: no response depends on a password. */
  lemma {:induction false} UserViewsIgnorePasswords(users1: map<int, UserRow>, users2: map<int, UserRow>)
    requires SamePublicView(users1, users2)
    ensures ShowAllUsers(users1) == ShowAllUsers(users2)
    ensures forall userId :: ShowUser(users1, userId) == ShowUser(users2, userId)
  {
    var ids := AscendingIds(users1.Keys);
    var rows1, rows2 := Scan(users1), Scan(users2);
    assert |rows1| == |ids| == |rows2|;
    var outs1, outs2 := ProjectAll(rows1), ProjectAll(rows2);
    forall i | 0 <= i < |outs1| ensures outs1[i] == outs2[i] {
      assert ids[i] in users1;
    }
    assert outs1 == outs2;
  }

  /** Every user response meets the UserOut constraints when the stored rows do. */
  lemma {:induction false} UserViewsMeetResponseModel(users: map<int, UserRow>, emailStr: string -> Option<string>)
    requires UserRowsValid(users, emailStr)
    ensures forall o :: o in ShowAllUsers(users) ==> ValidUserOut(o, emailStr)
    ensures forall userId :: ShowUser(users, userId).Ok? ==> ValidUserOut(ShowUser(users, userId).value, emailStr)
  {
    var ids := AscendingIds(users.Keys);
    var r := ShowAllUsers(users);
    forall o | o in r ensures ValidUserOut(o, emailStr) {
      var i :| 0 <= i < |r| && r[i] == o;
      assert ids[i] in users;
    }
  }

  /** POST /users/new: stores the encrypted password under a fresh id and
      answers with the row read back by that id. */
  method CreateUser(db: Database, payload: UserPayload, emailStr: string -> Option<string>, encrypt: string -> string)
    returns (r: Result<UserOut, Error>)
    requires db.Valid()
    modifies db
    ensures db.Valid()
    ensures ParseUserRegister(payload, emailStr).Err? ==>
      r == Err(ParseUserRegister(payload, emailStr).error) && unchanged(db)
    ensures r.Ok? <==> ParseUserRegister(payload, emailStr).Ok?
    ensures r.Ok? ==> r.value.id.Some? && r.value.id.value !in old(db.users)
    ensures r.Ok? ==>
      var u := ParseUserRegister(payload, emailStr).value;
      var id := r.value.id.value;
      db.users == old(db.users)[id := UserRow(id, u.base.email, u.base.firstName, u.base.lastName, u.base.birthDate, encrypt(u.password))]
    ensures r.Ok? ==> r.value.base == ParseUserRegister(payload, emailStr).value.base
    ensures r.Ok? ==> r == ShowUser(db.users, r.value.id.value)
    ensures db.tweets == old(db.tweets)
    ensures EmailStrStable(emailStr) && UserRowsValid(old(db.users), emailStr) ==> UserRowsValid(db.users, emailStr)
  {
    var parsed := ParseUserRegister(payload, emailStr);
    if parsed.Err? {
      return Err(parsed.error);
    }
    var newUser := parsed.value;
    var lastRowId := db.InsertUser(newUser.base.email, newUser.base.firstName, newUser.base.lastName,
                                   newUser.base.birthDate, encrypt(newUser.password));
    r := ShowUser(db.users, lastRowId);
  }

  /** DELETE /users/delete/{user_id}: removes only that user and answers with
      the row as it was. The user's tweets stay, now without an owner. */
  method DeleteUser(db: Database, userId: int) returns (r: Result<UserOut, Error>)
    requires db.Valid()
    modifies db
    ensures db.Valid()
    ensures r == ShowUser(old(db.users), userId)
    ensures r.Err? ==> unchanged(db)
    ensures db.users == old(db.users) - {userId}
    ensures db.tweets == old(db.tweets)
  {
    var deletedUser := GetUserByID(db.users, userId);
    if deletedUser.Err? {
      return Err(deletedUser.error);
    }
    db.DeleteUser(userId);
    r := Ok(ToUserOut(deletedUser.value));
  }

  /** PUT /users/update/{user_id}: overwrites email, names and birth date;
      the id and the stored password are kept. A missing id updates no row
      and the read-back fails with 'User ID not found'. */
  method UpdateUser(db: Database, userId: int, payload: UserPayload, emailStr: string -> Option<string>)
    returns (r: Result<UserOut, Error>)
    requires db.Valid()
    modifies db
    ensures db.Valid()
    ensures ParseUserBase(payload, emailStr).Err? ==> r == Err(ParseUserBase(payload, emailStr).error) && unchanged(db)
    ensures ParseUserBase(payload, emailStr).Ok? && userId !in old(db.users) ==> r == Err(UserNotFound) && unchanged(db)
    ensures r.Ok? <==> ParseUserBase(payload, emailStr).Ok? && userId in old(db.users)
    ensures r.Ok? ==>
      && userId in old(db.users) && userId in db.users
      && db.users.Keys == old(db.users).Keys
      && BaseOf(db.users[userId]) == ParseUserBase(payload, emailStr).value
      && db.users[userId].id == userId
      && db.users[userId].password == old(db.users)[userId].password
      && (forall k :: k in old(db.users) && k != userId ==> db.users[k] == old(db.users)[k])
    ensures r.Ok? ==> r == Ok(UserOut(ParseUserBase(payload, emailStr).value, Some(userId)))
    ensures db.tweets == old(db.tweets)
    ensures EmailStrStable(emailStr) && UserRowsValid(old(db.users), emailStr) ==> UserRowsValid(db.users, emailStr)
  {
    var parsed := ParseUserBase(payload, emailStr);
    if parsed.Err? {
      return Err(parsed.error);
    }
    db.UpdateUser(userId, parsed.value);
    r := ShowUser(db.users, userId);
  }
}
