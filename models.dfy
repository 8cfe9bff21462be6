/**
 * The two tables of app/db/models.py, the lookups the routes run against them,
 * and the database as a stateful object whose inserts keep the tables'
 * declared constraints: the primary keys, the unique index on `username` and
 * the foreign key from a chat record to its user.
 */
module Models {
  import opened Wrappers

  /** A row of `users`; `hashed_password` is the password verifier, never the plaintext. */
  datatype User = User(id: int, username: string, hashed_password: string)

  /** A row of `chat_history`; `timestamp` is the insertion time in whole seconds. */
  datatype ChatHistory = ChatHistory(id: int, user_id: int, message: string, response: string, timestamp: int)

  /**
   * `db.query(User).filter(User.username == name).first()`: the first row, in
   * table order, whose username is exactly `name`.
   */
  function FindUser(users: seq<User>, name: string): (r: Option<User>)
    ensures r.Some? ==> exists i :: 0 <= i < |users| && users[i] == r.value &&
                          (forall j :: 0 <= j < i ==> users[j].username != name)
    ensures r.Some? ==> r.value in users && r.value.username == name
    ensures r.None? <==> forall i :: 0 <= i < |users| ==> users[i].username != name
  {
    if |users| == 0 then None
    else if users[0].username == name then Some(users[0])
    else FindUser(users[1..], name)
  }

  /** The user a foreign key `user_id` points to: the row with that primary key. */
  function FindById(users: seq<User>, id: int): (r: Option<User>)
    ensures r.Some? ==> r.value in users && r.value.id == id
    ensures r.None? <==> forall i :: 0 <= i < |users| ==> users[i].id != id
  {
    if |users| == 0 then None
    else if users[0].id == id then Some(users[0])
    else FindById(users[1..], id)
  }

  /** The unique index on `users.username`. */
  predicate UniqueUsernames(users: seq<User>) {
    forall i, j :: 0 <= i < j < |users| ==> users[i].username != users[j].username
  }

  /** The primary key of `users`. */
  predicate UniqueUserIds(users: seq<User>) {
    forall i, j :: 0 <= i < j < |users| ==> users[i].id != users[j].id
  }

  /** Every chat record points at an existing user. */
  predicate ChatsReferenceUsers(users: seq<User>, chats: seq<ChatHistory>) {
    forall k :: 0 <= k < |chats| ==> FindById(users, chats[k].user_id).Some?
  }

  /**
   * The tables' constraints, together with the auto-increment counters being
   * above every key already handed out.
   */
  predicate TablesValid(users: seq<User>, chats: seq<ChatHistory>, nextUserId: int, nextChatId: int) {
    && 0 < nextUserId && 0 < nextChatId
    && UniqueUsernames(users)
    && UniqueUserIds(users)
    && (forall i :: 0 <= i < |users| ==> 0 < users[i].id < nextUserId)
    && (forall i, j :: 0 <= i < j < |chats| ==> chats[i].id != chats[j].id)
    && (forall k :: 0 <= k < |chats| ==> 0 < chats[k].id < nextChatId)
    && ChatsReferenceUsers(users, chats)
  }

  /** Looking up a name in a table with one more row at the end. */
  lemma {:induction false} FindUserAppend(users: seq<User>, u: User, name: string)
    ensures FindUser(users + [u], name) ==
      if FindUser(users, name).Some? then FindUser(users, name)
      else if u.username == name then Some(u) else None
  {
    if |users| == 0 {
      assert (users + [u])[1..] == [];
    } else {
      assert (users + [u])[1..] == users[1..] + [u];
      FindUserAppend(users[1..], u, name);
    }
  }

  /** Looking up a key in a table with one more row at the end. */
  lemma {:induction false} FindByIdAppend(users: seq<User>, u: User, id: int)
    ensures FindById(users + [u], id) ==
      if FindById(users, id).Some? then FindById(users, id)
      else if u.id == id then Some(u) else None
  {
    if |users| == 0 {
      assert (users + [u])[1..] == [];
    } else {
      assert (users + [u])[1..] == users[1..] + [u];
      FindByIdAppend(users[1..], u, id);
    }
  }

  /** Under the unique index, looking up a row's username finds that row. */
  lemma {:induction false} FindUserUnique(users: seq<User>, i: int)
    requires UniqueUsernames(users) && 0 <= i < |users|
    ensures FindUser(users, users[i].username) == Some(users[i])
  {
    if i > 0 {
      assert users[1..][i - 1] == users[i];
      FindUserUnique(users[1..], i - 1);
    }
  }

  /** Under the primary key, looking up a row's id finds that row. */
  lemma {:induction false} FindByIdUnique(users: seq<User>, i: int)
    requires UniqueUserIds(users) && 0 <= i < |users|
    ensures FindById(users, users[i].id) == Some(users[i])
  {
    if i > 0 {
      assert users[1..][i - 1] == users[i];
      FindByIdUnique(users[1..], i - 1);
    }
  }

  /**
   * The database session: the two tables and their auto-increment counters.
   * `AddUser` and `AddChat` are `db.add` followed by `db.commit`.
   */
  class Database {
    var users: seq<User>
    var chats: seq<ChatHistory>
    var nextUserId: int
    var nextChatId: int

    ghost predicate Valid()
      reads this
    {
      TablesValid(users, chats, nextUserId, nextChatId)
    }

    constructor ()
      ensures Valid()
      ensures users == [] && chats == []
      ensures nextUserId == 1 && nextChatId == 1
    {
      users, chats := [], [];
      nextUserId, nextChatId := 1, 1;
    }

    /**
     * Insert a user with the next id. The unique index on `username` makes
     * the insert fail, leaving the table as it was, when the name is taken.
     */
    method AddUser(username: string, hashed: string) returns (r: Option<User>)
      requires Valid()
      modifies this
      ensures Valid()
      ensures r.Some? <==> old(FindUser(users, username)).None?
      ensures r.None? ==> unchanged(this)
      ensures r.Some? ==>
        && r.value == User(old(nextUserId), username, hashed)
        && users == old(users) + [r.value]
        && nextUserId == old(nextUserId) + 1
        && chats == old(chats) && nextChatId == old(nextChatId)
    {
      if FindUser(users, username).Some? {
        return None;
      }
      var u := User(nextUserId, username, hashed);
      forall k | 0 <= k < |chats|
        ensures FindById(users + [u], chats[k].user_id).Some?
      {
        FindByIdAppend(users, u, chats[k].user_id);
      }
      users := users + [u];
      nextUserId := nextUserId + 1;
      r := Some(u);
    }

    /**
     * Insert a chat record with the next id. The foreign key to `users.id`
     * makes the insert fail, leaving the table as it was, when no user has
     * that id.
     */
    method AddChat(userId: int, message: string, response: string, stamp: int) returns (r: Option<ChatHistory>)
      requires Valid()
      modifies this
      ensures Valid()
      ensures r.Some? <==> old(FindById(users, userId)).Some?
      ensures r.None? ==> unchanged(this)
      ensures r.Some? ==>
        && r.value == ChatHistory(old(nextChatId), userId, message, response, stamp)
        && chats == old(chats) + [r.value]
        && nextChatId == old(nextChatId) + 1
        && users == old(users) && nextUserId == old(nextUserId)
    {
      if FindById(users, userId).None? {
        return None;
      }
      var c := ChatHistory(nextChatId, userId, message, response, stamp);
      chats := chats + [c];
      nextChatId := nextChatId + 1;
      r := Some(c);
    }
  }
}
