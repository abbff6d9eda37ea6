/** The tweet endpoints: post, list (all, or one user's), show, update and
    delete a tweet, with the ownership guard in front of update and delete
    and the assembly of a stored tweet with its owner into a TweetOut. */
module TweetRoutes {
  import opened Wrappers
  import opened Errors
  import opened UserModel
  import opened TweetModel
  import opened Tables
  import opened UserRoutes

  /** Fetches a tweet row by id, failing with 'Tweet ID not found'. */
  function GetTweetByID(tweets: map<int, TweetRow>, id: int): (r: Result<TweetRow, Error>)
    ensures r.Ok? <==> id in tweets
    ensures r.Ok? ==> r.value == tweets[id]
    ensures r.Err? ==> r.error == TweetNotFound
  {
    if id in tweets then Ok(tweets[id]) else Err(TweetNotFound)
  }

  /** to_TweetOut: copies the tweet's fields and embeds its owner; fails with
      'User ID not found' when the owner row is gone. */
  function ToTweetOut(users: map<int, UserRow>, t: TweetRow): (r: Result<TweetOut, Error>)
    ensures r.Ok? <==> t.userId in users
    ensures r.Err? ==> r.error == UserNotFound
    ensures r.Ok? ==>
      && r.value.id == Some(t.id)
      && r.value.content == t.content
      && r.value.createdAt == t.createdAt
      && r.value.updatedAt == t.updatedAt
      && r.value.postedBy == ToUserOut(users[t.userId])
  {
    match GetUserByID(users, t.userId)
    case Err(e) => Err(e)
    case Ok(owner) => Ok(TweetOut(t.content, Some(t.id), ToUserOut(owner), t.createdAt, t.updatedAt))
  }

  /** check_existence_and_relation: the user is checked first, then the tweet,
      then that the tweet's owner is that user. */
  function CheckExistenceAndRelation(users: map<int, UserRow>, tweets: map<int, TweetRow>, userId: int, tweetId: int)
    : (r: Outcome<Error>)
    ensures userId !in users ==> r == Fail(UserNotFound)
    ensures userId in users && tweetId !in tweets ==> r == Fail(TweetNotFound)
    ensures userId in users && tweetId in tweets ==>
      (r.Pass? <==> users[userId].id == tweets[tweetId].userId) && (r.Fail? ==> r.error == NotOwner)
    ensures UsersKeyed(users) ==>
      (r.Pass? <==> userId in users && tweetId in tweets && tweets[tweetId].userId == userId)
  {
    match GetUserByID(users, userId)
    case Err(e) => Fail(e)
    case Ok(user) =>
      match GetTweetByID(tweets, tweetId)
      case Err(e) => Fail(e)
      case Ok(tweet) => if user.id != tweet.userId then Fail(NotOwner) else Pass
  }

  /** The list comprehension over to_TweetOut: one output per row, in order;
      the first row whose owner is missing aborts the whole list. */
  function AssembleAll(users: map<int, UserRow>, rows: seq<TweetRow>): (r: Result<seq<TweetOut>, Error>)
    ensures r.Ok? <==> forall i :: 0 <= i < |rows| ==> rows[i].userId in users
    ensures r.Err? ==> r.error == UserNotFound
    ensures r.Ok? ==> |r.value| == |rows|
    ensures r.Ok? ==> forall i :: 0 <= i < |rows| ==> ToTweetOut(users, rows[i]) == Ok(r.value[i])
  {
    if rows == [] then
      Ok([])
    else
      match ToTweetOut(users, rows[0])
      case Err(e) => Err(e)
      case Ok(first) =>
        match AssembleAll(users, rows[1..])
        case Err(e) => Err(e)
        case Ok(rest) => Ok([first] + rest)
  }

  /** `outs` lists the assembled output of every row of `table` exactly once,
      in ascending id order, and nothing else. */
  predicate ListsEach(outs: seq<TweetOut>, users: map<int, UserRow>, table: map<int, TweetRow>)
  {
    && |outs| == |table|
    && (forall k :: k in table ==> ToTweetOut(users, table[k]).Ok? && ToTweetOut(users, table[k]).value in outs)
    && (forall i :: 0 <= i < |outs| ==>
          outs[i].id.Some? && outs[i].id.value in table && ToTweetOut(users, table[outs[i].id.value]) == Ok(outs[i]))
    && (forall i, j :: 0 <= i < j < |outs| ==>
          outs[i].id.Some? && outs[j].id.Some? && outs[i].id.value < outs[j].id.value)
  }

  /** Assembling a whole table succeeds exactly when every row has its owner. */
  lemma {:induction false} AssembleScanOk(users: map<int, UserRow>, table: map<int, TweetRow>)
    ensures AssembleAll(users, Scan(table)).Ok? <==> forall k :: k in table ==> table[k].userId in users
  {
    var ids := AscendingIds(table.Keys);
    var rows := Scan(table);
    if forall k :: k in table ==> table[k].userId in users {
      forall i | 0 <= i < |rows| ensures rows[i].userId in users {
        assert ids[i] in table;
      }
    } else {
      var k :| k in table && table[k].userId !in users;
      var i :| 0 <= i < |ids| && ids[i] == k;
      assert rows[i].userId !in users;
    }
  }

  /** A successful assembly of a whole table lists each of its rows once. */
  lemma {:induction false} AssembleScanLists(users: map<int, UserRow>, table: map<int, TweetRow>)
    requires TweetsKeyed(table) && AssembleAll(users, Scan(table)).Ok?
    ensures ListsEach(AssembleAll(users, Scan(table)).value, users, table)
  {
    var ids := AscendingIds(table.Keys);
    var rows := Scan(table);
    var outs := AssembleAll(users, rows).value;
    forall k | k in table
      ensures ToTweetOut(users, table[k]).Ok? && ToTweetOut(users, table[k]).value in outs
    {
      var i :| 0 <= i < |ids| && ids[i] == k;
      assert ToTweetOut(users, rows[i]) == Ok(outs[i]);
    }
    forall i | 0 <= i < |outs|
      ensures outs[i].id == Some(ids[i]) && ids[i] in table && ToTweetOut(users, table[ids[i]]) == Ok(outs[i])
    {
      assert ToTweetOut(users, rows[i]) == Ok(outs[i]);
    }
  }

  /** GET /tweets: every stored tweet with its owner; fails with 'User ID not
      found' as soon as one tweet's owner is missing. */
  function ShowAllTweets(users: map<int, UserRow>, tweets: map<int, TweetRow>): (r: Result<seq<TweetOut>, Error>)
    ensures r.Ok? <==> forall k :: k in tweets ==> tweets[k].userId in users
    ensures r.Err? ==> r.error == UserNotFound
    ensures r.Ok? && TweetsKeyed(tweets) ==> ListsEach(r.value, users, tweets)
  {
    AssembleScanOk(users, tweets);
    var r := AssembleAll(users, Scan(tweets));
    assert r.Ok? && TweetsKeyed(tweets) ==> ListsEach(r.value, users, tweets) by {
      if r.Ok? && TweetsKeyed(tweets) {
        AssembleScanLists(users, tweets);
      }
    }
    r
  }

  /** GET /users/{user_id}/tweets: fails when the user is missing; otherwise
      lists exactly the tweets whose owner is that user, each with that user. */
  function ShowUserTweets(users: map<int, UserRow>, tweets: map<int, TweetRow>, userId: int)
    : (r: Result<seq<TweetOut>, Error>)
    ensures r.Ok? <==> userId in users
    ensures r.Err? ==> r.error == UserNotFound
    ensures r.Ok? && TweetsKeyed(tweets) ==> ListsEach(r.value, users, OwnedBy(tweets, userId))
    ensures r.Ok? ==> forall o :: o in r.value ==> o.postedBy == ToUserOut(users[userId])
  {
    match GetUserByID(users, userId)
    case Err(e) => Err(e)
    case Ok(_) =>
      var owned := OwnedBy(tweets, userId);
      AssembleScanOk(users, owned);
      var r := AssembleAll(users, Scan(owned));
      assert TweetsKeyed(tweets) ==> ListsEach(r.value, users, owned) by {
        if TweetsKeyed(tweets) {
          AssembleScanLists(users, owned);
        }
      }
      assert forall o :: o in r.value ==> o.postedBy == ToUserOut(users[userId]) by {
        forall o | o in r.value ensures o.postedBy == ToUserOut(users[userId]) {
          var i :| 0 <= i < |r.value| && r.value[i] == o;
          assert AscendingIds(owned.Keys)[i] in owned;
        }
      }
      r
  }

  /** GET /tweets/{tweet_id}: to_TweetOut of the stored tweet. */
  function ShowATweet(users: map<int, UserRow>, tweets: map<int, TweetRow>, tweetId: int): (r: Result<TweetOut, Error>)
    ensures tweetId !in tweets ==> r == Err(TweetNotFound)
    ensures tweetId in tweets ==> r == ToTweetOut(users, tweets[tweetId])
    ensures r.Ok? <==> tweetId in tweets && tweets[tweetId].userId in users
    ensures r.Ok? && TweetsKeyed(tweets) ==> r.value.id == Some(tweetId)
  {
    match GetTweetByID(tweets, tweetId)
    case Err(e) => Err(e)
    case Ok(t) => ToTweetOut(users, t)
  }

  /** Deleting a user leaves its tweets in place, and every view of them then
      fails with 'User ID not found'. */
  lemma DeleteUserOrphansTweets(users: map<int, UserRow>, tweets: map<int, TweetRow>, userId: int, tweetId: int)
    requires tweetId in tweets && tweets[tweetId].userId == userId
    ensures ShowATweet(users - {userId}, tweets, tweetId) == Err(UserNotFound)
    ensures ShowAllTweets(users - {userId}, tweets) == Err(UserNotFound)
  {
  }

  /** Assembly depends on the owners only through their public view. */
  lemma {:induction false} AssembleAllIgnoresPasswords(users1: map<int, UserRow>, users2: map<int, UserRow>, rows: seq<TweetRow>)
    requires SamePublicView(users1, users2)
    ensures AssembleAll(users1, rows) == AssembleAll(users2, rows)
  {
    if rows != [] {
      AssembleAllIgnoresPasswords(users1, users2, rows[1..]);
    }
  }

  /** Tweet responses never depend on a stored password. */
  lemma TweetViewsIgnorePasswords(users1: map<int, UserRow>, users2: map<int, UserRow>, tweets: map<int, TweetRow>)
    requires SamePublicView(users1, users2)
    ensures ShowAllTweets(users1, tweets) == ShowAllTweets(users2, tweets)
    ensures forall userId :: ShowUserTweets(users1, tweets, userId) == ShowUserTweets(users2, tweets, userId)
    ensures forall tweetId :: ShowATweet(users1, tweets, tweetId) == ShowATweet(users2, tweets, tweetId)
  {
    AssembleAllIgnoresPasswords(users1, users2, Scan(tweets));
    forall userId ensures ShowUserTweets(users1, tweets, userId) == ShowUserTweets(users2, tweets, userId) {
      AssembleAllIgnoresPasswords(users1, users2, Scan(OwnedBy(tweets, userId)));
    }
  }

  /** When the stored rows meet the payload constraints, every tweet response
      meets TweetOut's: content within [1, 256] and an owner that is a valid UserOut. */
  lemma {:induction false} TweetViewsMeetResponseModel(users: map<int, UserRow>, tweets: map<int, TweetRow>, emailStr: string -> Option<string>)
    requires UserRowsValid(users, emailStr) && TweetRowsValid(tweets)
    ensures ShowAllTweets(users, tweets).Ok? ==>
      forall o :: o in ShowAllTweets(users, tweets).value ==> ValidTweetOut(o, emailStr)
    ensures forall userId :: ShowUserTweets(users, tweets, userId).Ok? ==>
      forall o :: o in ShowUserTweets(users, tweets, userId).value ==> ValidTweetOut(o, emailStr)
    ensures forall tweetId :: ShowATweet(users, tweets, tweetId).Ok? ==>
      ValidTweetOut(ShowATweet(users, tweets, tweetId).value, emailStr)
  {
    var r := ShowAllTweets(users, tweets);
    if r.Ok? {
      var ids := AscendingIds(tweets.Keys);
      var rows := Scan(tweets);
      forall o | o in r.value ensures ValidTweetOut(o, emailStr) {
        var i :| 0 <= i < |r.value| && r.value[i] == o;
        assert ids[i] in tweets;
        assert ToTweetOut(users, rows[i]) == Ok(o);
      }
    }
    forall userId | ShowUserTweets(users, tweets, userId).Ok?
      ensures forall o :: o in ShowUserTweets(users, tweets, userId).value ==> ValidTweetOut(o, emailStr)
    {
      var owned := OwnedBy(tweets, userId);
      var ids := AscendingIds(owned.Keys);
      var outs := ShowUserTweets(users, tweets, userId).value;
      assert outs == AssembleAll(users, Scan(owned)).value;
      forall o | o in outs ensures ValidTweetOut(o, emailStr) {
        var i :| 0 <= i < |outs| && outs[i] == o;
        assert ids[i] in owned;
        assert ToTweetOut(users, Scan(owned)[i]) == Ok(o);
      }
    }
  }

  /** POST /users/{user_id}/post: inserts one tweet stamped `now`, owned by the
      path user, and answers with the content, the new id and the owner. The
      response dict carries no created_at or updated_at, so TweetOut's
      defaults fill them: None, and `defaultCreatedAt`, the time the TweetOut
      class was defined. */
  method PostTweet(db: Database, userId: int, payload: TweetPayload, now: Timestamp, defaultCreatedAt: Timestamp)
    returns (r: Result<TweetOut, Error>)
    requires db.Valid()
    modifies db
    ensures db.Valid()
    ensures ParseTweetIn(payload).Err? ==> r == Err(Unprocessable({"content"})) && unchanged(db)
    ensures ParseTweetIn(payload).Ok? && userId !in old(db.users) ==> r == Err(UserNotFound) && unchanged(db)
    ensures r.Ok? <==> ParseTweetIn(payload).Ok? && userId in old(db.users)
    ensures r.Ok? ==> r.value.id.Some? && r.value.id.value !in old(db.tweets)
    ensures r.Ok? ==>
      db.tweets == old(db.tweets)[r.value.id.value := TweetRow(r.value.id.value, payload.content.value, now, None, userId)]
    ensures db.users == old(db.users)
    ensures r.Ok? ==>
      r.value == TweetOut(payload.content.value, r.value.id, ToUserOut(db.users[userId]), defaultCreatedAt, None)
    ensures r.Ok? ==> ShowATweet(db.users, db.tweets, r.value.id.value) == Ok(r.value.(createdAt := now))
    ensures TweetRowsValid(old(db.tweets)) ==> TweetRowsValid(db.tweets)
  {
    var parsed := ParseTweetIn(payload);
    if parsed.Err? {
      return Err(parsed.error);
    }
    var user := GetUserByID(db.users, userId);
    if user.Err? {
      return Err(user.error);
    }
    var newTweet := parsed.value;
    var lastRowId := db.InsertTweet(newTweet.content, now, None, user.value.id);
    var dbTweet := GetTweetByID(db.tweets, lastRowId);
    r := Ok(TweetOut(newTweet.content, Some(dbTweet.value.id), ToUserOut(user.value), defaultCreatedAt, None));
  }

  /** PUT /users/{user_id}/tweets/{tweet_id}/update: behind the guard, replaces
      the content and stamps updated_at; nothing else changes. */
  method UpdateTweet(db: Database, userId: int, tweetId: int, payload: TweetPayload, now: Timestamp)
    returns (r: Result<TweetOut, Error>)
    requires db.Valid()
    modifies db
    ensures db.Valid()
    ensures ParseTweetIn(payload).Err? ==> r == Err(Unprocessable({"content"})) && unchanged(db)
    ensures ParseTweetIn(payload).Ok? && CheckExistenceAndRelation(old(db.users), old(db.tweets), userId, tweetId).Fail? ==>
      r == Err(CheckExistenceAndRelation(old(db.users), old(db.tweets), userId, tweetId).error) && unchanged(db)
    ensures r.Ok? <==>
      ParseTweetIn(payload).Ok? && CheckExistenceAndRelation(old(db.users), old(db.tweets), userId, tweetId).Pass?
    ensures r.Ok? ==>
      && tweetId in old(db.tweets)
      && db.tweets == old(db.tweets)[tweetId := old(db.tweets)[tweetId].(content := payload.content.value, updatedAt := Some(now))]
    ensures r.Ok? ==>
      && userId in db.users
      && r.value == TweetOut(payload.content.value, Some(tweetId), ToUserOut(db.users[userId]), old(db.tweets)[tweetId].createdAt, Some(now))
    ensures r.Ok? ==> r == ShowATweet(db.users, db.tweets, tweetId)
    ensures db.users == old(db.users)
    ensures TweetRowsValid(old(db.tweets)) ==> TweetRowsValid(db.tweets)
  {
    var parsed := ParseTweetIn(payload);
    if parsed.Err? {
      return Err(parsed.error);
    }
    var guard := CheckExistenceAndRelation(db.users, db.tweets, userId, tweetId);
    if guard.Fail? {
      return Err(guard.error);
    }
    db.UpdateTweet(tweetId, parsed.value.content, now);
    r := ShowATweet(db.users, db.tweets, tweetId);
  }

  /** DELETE /users/{user_id}/tweets/{tweet_id}: behind the guard, assembles the
      tweet as it is, removes that one row and answers with the assembly. */
  method DeleteTweet(db: Database, userId: int, tweetId: int) returns (r: Result<TweetOut, Error>)
    requires db.Valid()
    modifies db
    ensures db.Valid()
    ensures CheckExistenceAndRelation(old(db.users), old(db.tweets), userId, tweetId).Fail? ==>
      r == Err(CheckExistenceAndRelation(old(db.users), old(db.tweets), userId, tweetId).error) && unchanged(db)
    ensures r.Ok? <==> CheckExistenceAndRelation(old(db.users), old(db.tweets), userId, tweetId).Pass?
    ensures r.Ok? ==> r == ShowATweet(old(db.users), old(db.tweets), tweetId)
    ensures r.Ok? ==> userId in db.users && r.value.postedBy == ToUserOut(db.users[userId])
    ensures r.Ok? ==> db.tweets == old(db.tweets) - {tweetId} && GetTweetByID(db.tweets, tweetId) == Err(TweetNotFound)
    ensures db.users == old(db.users)
    ensures TweetRowsValid(old(db.tweets)) ==> TweetRowsValid(db.tweets)
  {
    var guard := CheckExistenceAndRelation(db.users, db.tweets, userId, tweetId);
    if guard.Fail? {
      return Err(guard.error);
    }
    var deletedTweet := ShowATweet(db.users, db.tweets, tweetId);
    db.DeleteTweet(tweetId);
    r := deletedTweet;
  }
}
