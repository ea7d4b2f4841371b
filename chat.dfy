/**
  The in-memory chat room of backend/app/routes/chat.py: who is online
  (`online_users`), the last messages (`message_history`, at most 50), and the
  Socket.IO handlers that change them. Each handler returns the events it
  emits, in order, with the flag saying whether the event is broadcast to
  every client or sent to the calling connection only.
 */
module Chat {
  import opened Wrappers
  import opened Registry

  /** A value of the client's JSON payload: `null` (or a missing key) or a string. */
  datatype Json = Null | Str(s: string)

  /** The dictionary a client sends with an event. */
  type Payload = map<string, Json>

  /** `data.get(key)`. */
  function Get(data: Payload, key: string): (r: Json)
    ensures key !in data ==> r == Null
    ensures r == GetOr(data, key, Null)
  {
    if key in data then data[key] else Null
  }

  /** `data.get(key, default)`: the default only for a missing key, not for an explicit `null`. */
  function GetOr(data: Payload, key: string, default: Json): (r: Json)
    ensures key !in data ==> r == default
    ensures key in data ==> r == data[key]
  {
    if key in data then data[key] else default
  }

  /**
    Python truthiness of a payload value: a non-empty string.
    (Environment values have their own `Config.Truthy`.)
   */
  predicate Truthy(v: Json) {
    v.Str? && v.s != ""
  }

  /** The user name written on system records. */
  const SystemUsername: string := "System"

  /** The maximum number of records kept in `message_history`. */
  const HistoryLimit: nat := 50

  /** A record of `message_history`. */
  datatype Record =
      /** `{'type': 'system', 'username': 'System', 'content': ..., 'timestamp': ...}` (no avatar key) */
    | SystemMessage(content: string, createdAt: string)
      /** `{'type': ..., 'username': ..., 'content': ..., 'timestamp': ..., 'avatar_url': ...}` */
    | UserMessage(kind: Json, username: string, content: string, timestamp: Json, avatarUrl: Json)
  {
    /** The record's `'type'` field. */
    function Kind(): Json {
      if SystemMessage? then Str("system") else kind
    }

    /** The record's `'username'` field. */
    function Username(): string {
      if SystemMessage? then SystemUsername else username
    }
  }

  function JoinedText(u: string): string {
    u + " has joined the chat"
  }

  function LeftText(u: string): string {
    u + " has left the chat"
  }

  /** What an emitted event carries. */
  datatype EventData =
    | Count(n: nat)                                 // `len(online_users)`
    | Presence(username: string, onlineUsers: nat)  // `{'username': ..., 'online_users': ...}`
    | Records(records: seq<Record>)                 // the history list
    | Message(record: Record)                       // one record

  /** One `emit(name, data, broadcast=...)`. */
  datatype Event = Event(name: string, data: EventData, broadcast: bool)

  /**
    `message_history.append(rec)` followed by `if len(message_history) > 50: pop(0)`:
    the new record is last, and before it stand the newest old records, in order.
   */
  function Capped(history: seq<Record>, rec: Record): (r: seq<Record>)
    ensures |r| == if |history| < HistoryLimit then |history| + 1 else |history|
    ensures |history| <= HistoryLimit ==> |r| <= HistoryLimit
    ensures |r| > 0 && r[|r| - 1] == rec
    ensures r[..|r| - 1] == history[|history| + 1 - |r|..]
  {
    var appended := history + [rec];
    if |appended| > HistoryLimit then appended[1..] else appended
  }

  /** At the limit exactly the oldest record is dropped. */
  lemma CappedAtLimit(history: seq<Record>, rec: Record)
    requires |history| == HistoryLimit
    ensures Capped(history, rec) == history[1..] + [rec]
  {
    var r := Capped(history, rec);
    assert r == r[..|r| - 1] + [r[|r| - 1]];
  }

  /** Below the limit nothing is dropped. */
  lemma CappedBelowLimit(history: seq<Record>, rec: Record)
    requires |history| < HistoryLimit
    ensures Capped(history, rec) == history + [rec]
  {
    var r := Capped(history, rec);
    assert r == r[..|r| - 1] + [r[|r| - 1]];
  }

  /** The shared state of the chat routes. */
  class ChatRoom {
    /** `online_users`, in insertion order. */
    var onlineUsers: seq<Entry>
    /** `message_history`, oldest first. */
    var messageHistory: seq<Record>

    ghost predicate Valid()
      reads this
    {
      UniqueKeys(onlineUsers) && |messageHistory| <= HistoryLimit
    }

    /** The module's initial state: nobody online, no history. */
    constructor ()
      ensures Valid()
      ensures onlineUsers == [] && messageHistory == []
    {
      onlineUsers := [];
      messageHistory := [];
    }

    /** `handle_connect`: only logs, so it changes nothing and emits nothing. */
    method HandleConnect() returns (events: seq<Event>)
      ensures events == []
    {
      events := [];
    }

    /**
      `handle_join(data)` for the connection `sid`, at time `now` (the
      `datetime.now().isoformat()` text).
     */
    method HandleJoin(data: Payload, sid: string, now: string) returns (events: seq<Event>)
      requires Valid()
      modifies this
      ensures Valid()
      // A missing or empty username: nothing changes, nothing is emitted.
      ensures !Truthy(Get(data, "username")) ==>
        onlineUsers == old(onlineUsers) && messageHistory == old(messageHistory) && events == []
      // Otherwise the username now maps to `sid`, and every other entry is as it was.
      ensures Truthy(Get(data, "username")) ==>
        var u := Get(data, "username").s;
        && onlineUsers == Put(old(onlineUsers), u, sid)
        && Lookup(onlineUsers, u) == Some(sid)
        && (forall v :: v != u ==> Lookup(onlineUsers, v) == Lookup(old(onlineUsers), v))
        // A re-join overwrites and does not add to the count.
        && |onlineUsers| == (if Lookup(old(onlineUsers), u).Some? then |old(onlineUsers)| else |old(onlineUsers)| + 1)
        && messageHistory == Capped(old(messageHistory), SystemMessage(JoinedText(u), now))
        // Counts are taken after the insertion; the history sent to the joiner ends with its join record.
        && events == [
             Event("online_users", Count(|onlineUsers|), false),
             Event("user_joined", Presence(u, |onlineUsers|), true),
             Event("previous_messages", Records(messageHistory), false)]
        && messageHistory[|messageHistory| - 1] == SystemMessage(JoinedText(u), now)
    {
      var username := Get(data, "username");
      events := [];
      if Truthy(username) {
        var u := username.s;
        onlineUsers := Put(onlineUsers, u, sid);
        events := events + [Event("online_users", Count(|onlineUsers|), false)];
        events := events + [Event("user_joined", Presence(u, |onlineUsers|), true)];
        messageHistory := Capped(messageHistory, SystemMessage(JoinedText(u), now));
        events := events + [Event("previous_messages", Records(messageHistory), false)];
      }
    }

    /**
      `handle_disconnect()` for the connection `sid`, at time `now`: the loop
      over a snapshot of `online_users.items()` stops at the first item whose
      sid matches.
     */
    method HandleDisconnect(sid: string, now: string) returns (events: seq<Event>)
      requires Valid()
      modifies this
      ensures Valid()
      // No entry maps to `sid`: nothing is removed, appended or emitted.
      ensures FindSid(old(onlineUsers), sid).None? ==>
        onlineUsers == old(onlineUsers) && messageHistory == old(messageHistory) && events == []
      // Otherwise exactly the first matching entry goes, and one leave record is appended.
      ensures FindSid(old(onlineUsers), sid).Some? ==>
        var i := FindSid(old(onlineUsers), sid).value;
        var u := old(onlineUsers)[i].0;
        && onlineUsers == old(onlineUsers)[..i] + old(onlineUsers)[i + 1..]
        && Lookup(onlineUsers, u).None?
        && (forall v :: v != u ==> Lookup(onlineUsers, v) == Lookup(old(onlineUsers), v))
        && |onlineUsers| == |old(onlineUsers)| - 1
        && messageHistory == Capped(old(messageHistory), SystemMessage(LeftText(u), now))
        // Both counts are taken after the deletion.
        && events == [
             Event("user_left", Presence(u, |onlineUsers|), true),
             Event("online_users", Count(|onlineUsers|), true)]
        && messageHistory[|messageHistory| - 1] == SystemMessage(LeftText(u), now)
    {
      events := [];
      var snapshot := onlineUsers;
      var i := 0;
      while i < |snapshot|
        invariant 0 <= i <= |snapshot|
        invariant forall k :: 0 <= k < i ==> snapshot[k].1 != sid
        invariant onlineUsers == snapshot && messageHistory == old(messageHistory) && events == []
      {
        var (username, s) := snapshot[i];
        if s == sid {
          LookupAt(onlineUsers, i);
          DeleteAt(onlineUsers, i);
          onlineUsers := Delete(onlineUsers, username);
          events := events + [Event("user_left", Presence(username, |onlineUsers|), true)];
          messageHistory := Capped(messageHistory, SystemMessage(LeftText(username), now));
          events := events + [Event("online_users", Count(|onlineUsers|), true)];
          break;
        }
        i := i + 1;
      }
    }

    /**
      `handle_message(data)`. The timestamp is the client's, copied as sent;
      `type` defaults to `'text'` only when the key is missing.
     */
    method HandleMessage(data: Payload) returns (events: seq<Event>)
      requires Valid()
      modifies this
      ensures Valid()
      ensures onlineUsers == old(onlineUsers)
      // A missing or empty username or content: nothing is recorded or sent.
      ensures !(Truthy(Get(data, "username")) && Truthy(Get(data, "content"))) ==>
        messageHistory == old(messageHistory) && events == []
      // Otherwise one record, holding the inputs verbatim, is appended and broadcast.
      ensures Truthy(Get(data, "username")) && Truthy(Get(data, "content")) ==>
        var rec := UserMessage(
          GetOr(data, "type", Str("text")), Get(data, "username").s, Get(data, "content").s,
          Get(data, "timestamp"), Get(data, "avatar_url"));
        && messageHistory == Capped(old(messageHistory), rec)
        && events == [Event("message", Message(rec), true)]
    {
      var username := Get(data, "username");
      var content := Get(data, "content");
      var timestamp := Get(data, "timestamp");
      var msgType := GetOr(data, "type", Str("text"));
      var avatarUrl := Get(data, "avatar_url");
      events := [];
      if Truthy(username) && Truthy(content) {
        var rec := UserMessage(msgType, username.s, content.s, timestamp, avatarUrl);
        messageHistory := Capped(messageHistory, rec);
        events := events + [Event("message", Message(rec), true)];
      }
    }
  }

  /** The registry states of the two-user session below. */
  lemma SessionRegistry()
    ensures Put([], "alice", "sid-a") == [("alice", "sid-a")]
    ensures Put([("alice", "sid-a")], "bob", "sid-b") == [("alice", "sid-a"), ("bob", "sid-b")]
    ensures FindSid([("alice", "sid-a"), ("bob", "sid-b")], "sid-b") == Some(1)
    ensures [("alice", "sid-a"), ("bob", "sid-b")][..1] + [("alice", "sid-a"), ("bob", "sid-b")][2..] == [("alice", "sid-a")]
  {
  }

  /**
    A session of two users, seen from client code: what the handlers'
    contracts alone let a caller conclude, one step at a time.
   */
  method TwoUserSession(t1: string, t2: string, t3: string)
  {
    var room := new ChatRoom();
    AliceJoins(room, t1);
    BobJoins(room, t2);
    BobLeaves(room, t3);
  }

  /** alice joins the empty room: one user online, and everyone is told so. */
  method AliceJoins(room: ChatRoom, t: string)
    requires room.Valid() && room.onlineUsers == []
    modifies room
    ensures room.Valid() && room.onlineUsers == [("alice", "sid-a")]
  {
    SessionRegistry();
    var join := map["username" := Str("alice")];
    assert Get(join, "username") == Str("alice");
    var e := room.HandleJoin(join, "sid-a", t);
    assert e[0] == Event("online_users", Count(1), false);
    assert e[1] == Event("user_joined", Presence("alice", 1), true);
  }

  /** bob joins next: two users online. */
  method BobJoins(room: ChatRoom, t: string)
    requires room.Valid() && room.onlineUsers == [("alice", "sid-a")]
    modifies room
    ensures room.Valid() && room.onlineUsers == [("alice", "sid-a"), ("bob", "sid-b")]
  {
    SessionRegistry();
    var join := map["username" := Str("bob")];
    assert Get(join, "username") == Str("bob");
    var e := room.HandleJoin(join, "sid-b", t);
    assert e[1] == Event("user_joined", Presence("bob", 2), true);
  }

  /** The first joiner of an empty room is sent a history holding only its own join record. */
  method FirstJoinReplay(t: string)
  {
    var room := new ChatRoom();
    var join := map["username" := Str("alice")];
    assert Get(join, "username") == Str("alice");
    var e := room.HandleJoin(join, "sid-a", t);
    CappedBelowLimit([], SystemMessage(JoinedText("alice"), t));
    assert room.messageHistory == [SystemMessage(JoinedText("alice"), t)];
    assert e[2] == Event("previous_messages", Records([SystemMessage(JoinedText("alice"), t)]), false);
  }

  /** The end of that session: bob's connection closes and alice is left alone. */
  method BobLeaves(room: ChatRoom, t: string)
    requires room.Valid() && room.onlineUsers == [("alice", "sid-a"), ("bob", "sid-b")]
    modifies room
  {
    SessionRegistry();
    var e := room.HandleDisconnect("sid-b", t);
    assert room.onlineUsers == [("alice", "sid-a")];
    assert e == [Event("user_left", Presence("bob", 1), true), Event("online_users", Count(1), true)];
    assert room.messageHistory[|room.messageHistory| - 1] == SystemMessage(LeftText("bob"), t);
  }

  /** A message is recorded with the client's timestamp and `type` defaulting to `'text'`, and echoed to all. */
  method MessageEcho(room: ChatRoom, t: string)
    requires room.Valid()
    modifies room
  {
    var msg := map["username" := Str("alice"), "content" := Str("hi"), "timestamp" := Str(t)];
    assert Get(msg, "username") == Str("alice") && Get(msg, "content") == Str("hi");
    assert Get(msg, "timestamp") == Str(t) && Get(msg, "avatar_url") == Null;
    assert GetOr(msg, "type", Str("text")) == Str("text");
    var e := room.HandleMessage(msg);
    assert e == [Event("message", Message(UserMessage(Str("text"), "alice", "hi", Str(t), Null)), true)];
  }

  /** The registry states of the duplicate-username session below. */
  lemma DuplicateRegistry()
    ensures Put([], "alice", "sid-1") == [("alice", "sid-1")]
    ensures Put([("alice", "sid-1")], "alice", "sid-2") == [("alice", "sid-2")]
    ensures FindSid([("alice", "sid-2")], "sid-1").None?
  {
  }

  /**
    Two connections join under one name: the second wins, and the first
    connection's disconnect then finds nothing to remove.
   */
  method DuplicateUsername(t1: string, t2: string, t3: string)
  {
    DuplicateRegistry();
    var room := new ChatRoom();
    var join := map["username" := Str("alice")];
    assert Get(join, "username") == Str("alice");
    var e := room.HandleJoin(join, "sid-1", t1);
    assert room.onlineUsers == [("alice", "sid-1")];
    e := room.HandleJoin(join, "sid-2", t2);
    assert room.onlineUsers == [("alice", "sid-2")];
    assert e[1] == Event("user_joined", Presence("alice", 1), true);
    var history := room.messageHistory;
    e := room.HandleDisconnect("sid-1", t3);
    assert e == [] && room.onlineUsers == [("alice", "sid-2")] && room.messageHistory == history;
  }
}
