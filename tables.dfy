/** The two tables, `users` and `tweets`, and the row-level operations the
    routes issue against them: insert (with an auto-increment id), update
    by id, delete by id, and an unordered select. */
module Tables {
  import opened Wrappers
  import opened UserModel
  import opened TweetModel

  /** A row of `users`. The password column holds the ciphertext. */
  datatype UserRow = UserRow(
    id: int,
    email: string,
    firstName: string,
    lastName: string,
    birthDate: Option<Date>,
    password: string)

  /** A row of `tweets`; `userId` references the owning user. */
  datatype TweetRow = TweetRow(
    id: int,
    content: string,
    createdAt: Timestamp,
    updatedAt: Option<Timestamp>,
    userId: int)

  /** Every row is stored under its own id. */
  predicate UsersKeyed(users: map<int, UserRow>)
  {
    forall k :: k in users ==> users[k].id == k
  }

  predicate TweetsKeyed(tweets: map<int, TweetRow>)
  {
    forall k :: k in tweets ==> tweets[k].id == k
  }

  /** The base fields of a stored user. */
  function BaseOf(u: UserRow): UserBase
  {
    UserBase(u.email, u.firstName, u.lastName, u.birthDate)
  }

  /** Every stored user meets the UserBase constraints. */
  predicate UserRowsValid(users: map<int, UserRow>, emailStr: string -> Option<string>)
  {
    forall k :: k in users ==> ValidUserBase(BaseOf(users[k]), emailStr)
  }

  /** Every stored tweet meets the TweetIn content bound. */
  predicate TweetRowsValid(tweets: map<int, TweetRow>)
  {
    forall k :: k in tweets ==> ContentOk(tweets[k].content)
  }

  /** The least id of a non-empty set of ids. */
  function Least(ids: set<int>): (m: int)
    requires ids != {}
    ensures m in ids && forall k :: k in ids ==> m <= k
  {
    LeastExists(ids);
    var m :| m in ids && forall k :: k in ids ==> m <= k;
    m
  }

  lemma {:induction false} LeastExists(ids: set<int>)
    requires ids != {}
    ensures exists m :: m in ids && forall k :: k in ids ==> m <= k
  {
    HasMember(ids);
    var x :| x in ids;
    var rest := ids - {x};
    if rest == {} {
      assert ids == {x};
      assert forall k :: k in ids ==> x <= k;
    } else {
      LeastExists(rest);
      var m :| m in rest && forall k :: k in rest ==> m <= k;
      if x < m {
        assert forall k :: k in ids ==> x <= k by {
          forall k | k in ids ensures x <= k {
            if k != x { assert k in rest; }
          }
        }
      } else {
        assert forall k :: k in ids ==> m <= k by {
          forall k | k in ids ensures m <= k {
            if k != x { assert k in rest; }
          }
        }
      }
    }
  }

  /** A set is empty or has a member. */
  lemma HasMember(ids: set<int>)
    ensures ids == {} || exists x :: x in ids
  {
    if forall x :: x !in ids {
      assert ids == {};
    }
  }

  /** The ids of a table in the order a SELECT without ORDER BY returns its
      rows, taken to be ascending primary-key order: every id exactly once. */
  function AscendingIds(ids: set<int>): (r: seq<int>)
    ensures |r| == |ids|
    ensures forall i :: 0 <= i < |r| ==> r[i] in ids
    ensures forall k :: k in ids ==> k in r
    ensures forall i, j :: 0 <= i < j < |r| ==> r[i] < r[j]
    decreases ids
  {
    if ids == {} then
      []
    else
      var m := Least(ids);
      [m] + AscendingIds(ids - {m})
  }

  /** All rows of a table, in the order of AscendingIds. */
  function Scan<R>(table: map<int, R>): (rows: seq<R>)
    ensures |rows| == |table|
    ensures forall i :: 0 <= i < |rows| ==>
      AscendingIds(table.Keys)[i] in table && rows[i] == table[AscendingIds(table.Keys)[i]]
  {
    var ids := AscendingIds(table.Keys);
    seq(|ids|, i requires 0 <= i < |ids| => table[ids[i]])
  }

  /** The rows of `tweets` whose `user_id` is `owner`. */
  function OwnedBy(tweets: map<int, TweetRow>, owner: int): (r: map<int, TweetRow>)
    ensures forall k :: k in r <==> k in tweets && tweets[k].userId == owner
    ensures forall k :: k in r ==> r[k] == tweets[k]
  {
    map k | k in tweets && tweets[k].userId == owner :: tweets[k]
  }

  /** The database connection: both tables and their auto-increment counters. */
  class Database {
    var users: map<int, UserRow>
    var tweets: map<int, TweetRow>
    var nextUserId: int
    var nextTweetId: int

    /** Rows are keyed by their id and every id lies below its table's counter,
        so the counter is always a fresh id. */
    ghost predicate Valid()
      reads this
    {
      && UsersKeyed(users)
      && TweetsKeyed(tweets)
      && (forall k :: k in users ==> k < nextUserId)
      && (forall k :: k in tweets ==> k < nextTweetId)
    }

    /** Empty tables; auto-increment starts at 1. */
    constructor ()
      ensures Valid()
      ensures users == map[] && tweets == map[]
      ensures nextUserId == 1 && nextTweetId == 1
    {
      users := map[];
      tweets := map[];
      nextUserId := 1;
      nextTweetId := 1;
    }

    /** INSERT INTO users; returns the generated id (lastrowid). */
    method InsertUser(email: string, firstName: string, lastName: string, birthDate: Option<Date>, password: string)
      returns (id: int)
      requires Valid()
      modifies this
      ensures Valid()
      ensures id == old(nextUserId) && id !in old(users)
      ensures users == old(users)[id := UserRow(id, email, firstName, lastName, birthDate, password)]
      ensures nextUserId == old(nextUserId) + 1
      ensures tweets == old(tweets) && nextTweetId == old(nextTweetId)
    {
      id := nextUserId;
      users := users[id := UserRow(id, email, firstName, lastName, birthDate, password)];
      nextUserId := nextUserId + 1;
    }

    /** UPDATE users SET email, first_name, last_name, birth_date WHERE id = `id`;
        matches no row when the id is absent. */
    method UpdateUser(id: int, base: UserBase)
      requires Valid()
      modifies this`users
      ensures Valid()
      ensures id in old(users) ==> users == old(users)[id := old(users)[id].(
        email := base.email, firstName := base.firstName, lastName := base.lastName, birthDate := base.birthDate)]
      ensures id !in old(users) ==> users == old(users)
    {
      if id in users {
        users := users[id := users[id].(
          email := base.email, firstName := base.firstName, lastName := base.lastName, birthDate := base.birthDate)];
      }
    }

    /** DELETE FROM users WHERE id = `id`. Tweets are left as they are. */
    method DeleteUser(id: int)
      requires Valid()
      modifies this`users
      ensures Valid()
      ensures users == old(users) - {id}
    {
      users := users - {id};
    }

    /** INSERT INTO tweets; returns the generated id (lastrowid). */
    method InsertTweet(content: string, createdAt: Timestamp, updatedAt: Option<Timestamp>, userId: int)
      returns (id: int)
      requires Valid()
      modifies this
      ensures Valid()
      ensures id == old(nextTweetId) && id !in old(tweets)
      ensures tweets == old(tweets)[id := TweetRow(id, content, createdAt, updatedAt, userId)]
      ensures nextTweetId == old(nextTweetId) + 1
      ensures users == old(users) && nextUserId == old(nextUserId)
    {
      id := nextTweetId;
      tweets := tweets[id := TweetRow(id, content, createdAt, updatedAt, userId)];
      nextTweetId := nextTweetId + 1;
    }

    /** UPDATE tweets SET content, updated_at WHERE id = `id`. */
    method UpdateTweet(id: int, content: string, updatedAt: Timestamp)
      requires Valid()
      modifies this`tweets
      ensures Valid()
      ensures id in old(tweets) ==> tweets == old(tweets)[id := old(tweets)[id].(content := content, updatedAt := Some(updatedAt))]
      ensures id !in old(tweets) ==> tweets == old(tweets)
    {
      if id in tweets {
        tweets := tweets[id := tweets[id].(content := content, updatedAt := Some(updatedAt))];
      }
    }

    /** DELETE FROM tweets WHERE id = `id`. */
    method DeleteTweet(id: int)
      requires Valid()
      modifies this`tweets
      ensures Valid()
      ensures tweets == old(tweets) - {id}
    {
      tweets := tweets - {id};
    }
  }
}
