/**
 * The protected chat routes (app/chat/chat_router.py): talking to the bot,
 * which passes the full gate and records the exchange, and reading one's
 * history, which checks only the token and its subject and then pages
 * through that user's records. The language model is an opaque total
 * function `Bot`.
 */
module Chat {
  import opened Wrappers
  import opened Jwt
  import opened Models
  import opened Auth

  /** generate_bot_response; opaque. */
  type Bot = string -> string

  /** The body of a successful chat: the message echoed and the bot's reply. */
  datatype ChatReply = ChatReply(message: string, response: string)

  /** One formatted history entry. */
  datatype Entry = Entry(id: int, message: string, response: string, timestamp: int)

  /** The body of a successful history request. */
  datatype HistoryResponse =
    | NoHistory(message: string)
    | History(username: Claim, history: seq<Entry>)

  const NO_HISTORY_MESSAGE: string := "No chat history found."
  const DEFAULT_SKIP: int := 0
  const DEFAULT_LIMIT: int := 10

  /**
   * chat_with_bot: behind the full gate (401, 401, 404 in that order), ask
   * the bot and append exactly one record of the exchange for the token's
   * user; nothing is appended on rejection.
   */
  method ChatWithBot(db: Database, message: string, t: Token, now: int, stamp: int, sign: Signer, bot: Bot)
    returns (r: Result<ChatReply, HttpError>)
    requires db.Valid() && ExpReadable(t, sign)
    modifies db
    ensures db.Valid() && db.users == old(db.users)
    ensures var gate := AuthorizedUser(old(db.users), t, now, sign);
      && (gate.Failure? ==> r == Failure(gate.error) && unchanged(db))
      && (gate.Success? ==>
            && r == Success(ChatReply(message, bot(message)))
            && db.chats == old(db.chats) + [ChatHistory(old(db.nextChatId), gate.value.id, message, bot(message), stamp)]
            && db.nextChatId == old(db.nextChatId) + 1 && db.nextUserId == old(db.nextUserId))
  {
    var user := AuthorizedUser(db.users, t, now, sign);
    if user.Failure? {
      return Failure(user.error);
    }
    var response := bot(message);
    var chatLog := db.AddChat(user.value.id, message, response, stamp);
    assert chatLog.Some?;
    r := Success(ChatReply(message, response));
  }

  /** The record's owner (through its `user_id`) has the username `sub`. */
  predicate Owns(users: seq<User>, c: ChatHistory, sub: Claim) {
    match FindById(users, c.user_id)
    case Some(owner) => sub == Text(owner.username)
    case None => false
  }

  /** The chat records whose owner has the username `sub`, in table order. */
  function UserLogs(users: seq<User>, chats: seq<ChatHistory>, sub: Claim): (r: seq<ChatHistory>)
    ensures |r| <= |chats|
    ensures forall i :: 0 <= i < |r| ==> r[i] in chats && Owns(users, r[i], sub)
    ensures forall k :: 0 <= k < |chats| && Owns(users, chats[k], sub) ==> chats[k] in r
  {
    if |chats| == 0 then []
    else if Owns(users, chats[0], sub) then [chats[0]] + UserLogs(users, chats[1..], sub)
    else UserLogs(users, chats[1..], sub)
  }

  function Min(a: int, b: int): int {
    if a <= b then a else b
  }

  /** The row an OFFSET starts at; a negative offset counts as none. */
  function Offset(skip: int): nat {
    if skip < 0 then 0 else skip
  }

  /**
   * `.offset(skip).limit(limit)`: the rows from position `skip` on, at most
   * `limit` of them; a negative limit sets no bound.
   */
  function Page<T>(s: seq<T>, skip: int, limit: int): (r: seq<T>)
    ensures |r| == if limit < 0 then |s| - Min(Offset(skip), |s|)
                   else Min(limit, |s| - Min(Offset(skip), |s|))
    ensures forall i :: 0 <= i < |r| ==> r[i] == s[Min(Offset(skip), |s|) + i]
  {
    var from := Min(Offset(skip), |s|);
    var to := if limit < 0 then |s| else Min(from + limit, |s|);
    s[from..to]
  }

  function ToEntry(c: ChatHistory): Entry {
    Entry(c.id, c.message, c.response, c.timestamp)
  }

  /**
   * get_chat_history: only the token and subject checks (so never 404), then
   * the page of the subject's records, each formatted as an entry, or the
   * "No chat history found." message when the page is empty.
   */
  function GetChatHistory(users: seq<User>, chats: seq<ChatHistory>, t: Token, now: int, skip: int, limit: int, sign: Signer)
    : (r: Result<HistoryResponse, HttpError>)
    requires ExpReadable(t, sign)
    ensures r.Failure? <==> TokenSubject(t, now, sign).Failure?
    ensures r.Failure? ==> r.error == TokenSubject(t, now, sign).error && r.error.status == 401
    ensures r.Success? ==>
      var page := Page(UserLogs(users, chats, Sub(t.payload)), skip, limit);
      && (r.value.NoHistory? <==> page == [])
      && (r.value.NoHistory? ==> r.value.message == NO_HISTORY_MESSAGE)
      && (r.value.History? ==>
            && r.value.username == Sub(t.payload)
            && |r.value.history| == |page|
            && forall i :: 0 <= i < |page| ==> r.value.history[i] == ToEntry(page[i]))
  {
    match TokenSubject(t, now, sign)
    case Failure(e) => Failure(e)
    case Success(username) =>
      var userChatLogs := Page(UserLogs(users, chats, username), skip, limit);
      if userChatLogs == [] then Success(NoHistory(NO_HISTORY_MESSAGE))
      else
        var history := seq(|userChatLogs|, i requires 0 <= i < |userChatLogs| => ToEntry(userChatLogs[i]));
        Success(History(username, history))
  }

  /** Filtering a table with one more record at the end. */
  lemma {:induction false} UserLogsAppend(users: seq<User>, chats: seq<ChatHistory>, c: ChatHistory, sub: Claim)
    ensures UserLogs(users, chats + [c], sub) ==
      UserLogs(users, chats, sub) + (if Owns(users, c, sub) then [c] else [])
  {
    if |chats| == 0 {
      assert (chats + [c])[1..] == [];
    } else {
      assert (chats + [c])[1..] == chats[1..] + [c];
      UserLogsAppend(users, chats[1..], c, sub);
    }
  }

  /**
   * A record appended for user `u` joins the end of `u`'s history and no one
   * else's.
   */
  lemma LoggedChatJoinsOwnHistory(users: seq<User>, chats: seq<ChatHistory>, u: User, c: ChatHistory, sub: Claim)
    requires UniqueUserIds(users) && u in users && c.user_id == u.id
    ensures UserLogs(users, chats + [c], Text(u.username)) == UserLogs(users, chats, Text(u.username)) + [c]
    ensures sub != Text(u.username) ==> UserLogs(users, chats + [c], sub) == UserLogs(users, chats, sub)
  {
    var i :| 0 <= i < |users| && users[i] == u;
    FindByIdUnique(users, i);
    UserLogsAppend(users, chats, c, Text(u.username));
    UserLogsAppend(users, chats, c, sub);
  }

  /**
   * Registering a user leaves every existing history as it is, because every
   * record already points at an earlier user.
   */
  lemma {:induction false} NewUserKeepsHistories(users: seq<User>, chats: seq<ChatHistory>, nu: User, sub: Claim)
    requires ChatsReferenceUsers(users, chats)
    ensures UserLogs(users + [nu], chats, sub) == UserLogs(users, chats, sub)
  {
    if |chats| > 0 {
      FindByIdAppend(users, nu, chats[0].user_id);
      assert Owns(users + [nu], chats[0], sub) == Owns(users, chats[0], sub);
      assert ChatsReferenceUsers(users, chats[1..]) by {
        forall k | 0 <= k < |chats[1..]| ensures FindById(users, chats[1..][k].user_id).Some? {
          assert chats[1..][k] == chats[k + 1];
        }
      }
      NewUserKeepsHistories(users, chats[1..], nu, sub);
    }
  }

  /** Consecutive pages tile the sequence: page (k, n) then page (k + n, m) is page (k, n + m). */
  lemma PagesTile<T>(s: seq<T>, k: nat, n: nat, m: nat)
    ensures Page(s, k, n) + Page(s, k + n, m) == Page(s, k, n + m)
  {
    var a, b, c := Page(s, k, n), Page(s, k + n, m), Page(s, k, n + m);
    assert |a + b| == |c|;
    forall i | 0 <= i < |c| ensures (a + b)[i] == c[i] {
      if i >= |a| {
        assert (a + b)[i] == b[i - |a|];
      }
    }
  }

  /** The entry is the formatting of some record owned by `sub`. */
  predicate OwnedEntry(users: seq<User>, chats: seq<ChatHistory>, sub: Claim, e: Entry) {
    exists k :: 0 <= k < |chats| && Owns(users, chats[k], sub) && e == ToEntry(chats[k])
  }

  /** Every returned entry is one of the subject's own records. */
  lemma HistoryEntriesOwned(users: seq<User>, chats: seq<ChatHistory>, t: Token, now: int, skip: int, limit: int, sign: Signer)
    requires ExpReadable(t, sign)
    requires GetChatHistory(users, chats, t, now, skip, limit, sign).Success?
    ensures var h := GetChatHistory(users, chats, t, now, skip, limit, sign).value;
      h.History? ==>
        forall i :: 0 <= i < |h.history| ==> OwnedEntry(users, chats, h.username, h.history[i])
  {
    var h := GetChatHistory(users, chats, t, now, skip, limit, sign).value;
    if h.History? {
      var sub := Sub(t.payload);
      var logs := UserLogs(users, chats, sub);
      var page := Page(logs, skip, limit);
      assert h.username == sub && |h.history| == |page|;
      forall i | 0 <= i < |h.history|
        ensures OwnedEntry(users, chats, sub, h.history[i])
      {
        var j := Min(Offset(skip), |logs|) + i;
        assert h.history[i] == ToEntry(page[i]) && page[i] == logs[j];
        assert logs[j] in chats && Owns(users, logs[j], sub);
        var k :| 0 <= k < |chats| && chats[k] == logs[j];
      }
    }
  }

  /**
   * The empty-result message appears exactly when the subject has no record
   * at or after position `skip`, or the limit is zero.
   */
  lemma HistoryEmptyIff(users: seq<User>, chats: seq<ChatHistory>, t: Token, now: int, skip: int, limit: int, sign: Signer)
    requires ExpReadable(t, sign)
    requires GetChatHistory(users, chats, t, now, skip, limit, sign).Success?
    ensures GetChatHistory(users, chats, t, now, skip, limit, sign).value.NoHistory? <==>
      (limit == 0 || |UserLogs(users, chats, Sub(t.payload))| <= Offset(skip))
  {
  }

  /**
   * With the default skip and limit, the history is the subject's first ten
   * records (or all of them, if fewer).
   */
  lemma DefaultHistoryIsFirstTen(users: seq<User>, chats: seq<ChatHistory>, t: Token, now: int, sign: Signer)
    requires ExpReadable(t, sign)
    requires GetChatHistory(users, chats, t, now, DEFAULT_SKIP, DEFAULT_LIMIT, sign).Success?
    ensures var h := GetChatHistory(users, chats, t, now, DEFAULT_SKIP, DEFAULT_LIMIT, sign).value;
      var logs := UserLogs(users, chats, Sub(t.payload));
      h.History? ==>
        && |h.history| == Min(10, |logs|)
        && forall i :: 0 <= i < |h.history| ==> h.history[i] == ToEntry(logs[i])
  {
  }

  /**
   * After a chat is recorded for the gate's user, that user's full history
   * (skip 0, no limit) ends with the new exchange.
   */
  lemma ChatThenHistory(users: seq<User>, chats: seq<ChatHistory>, t: Token, now: int, c: ChatHistory, sign: Signer)
    requires UniqueUserIds(users) && ExpReadable(t, sign)
    requires AuthorizedUser(users, t, now, sign).Success?
    requires c.user_id == AuthorizedUser(users, t, now, sign).value.id
    ensures var h := GetChatHistory(users, chats + [c], t, now, 0, -1, sign);
      && h.Success? && h.value.History?
      && |h.value.history| == |UserLogs(users, chats, Sub(t.payload))| + 1
      && h.value.history[|h.value.history| - 1] == ToEntry(c)
  {
    var u := AuthorizedUser(users, t, now, sign).value;
    LoggedChatJoinsOwnHistory(users, chats, u, c, Sub(t.payload));
  }
}
