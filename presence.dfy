/**
 * The WebSocket side of the chat server: the registry of logged-in
 * connections (`connectedUsers`), the fan-out to every open client
 * (`broadcast`), the `message` and `close` handlers of a connection and the
 * online-users query.
 *
 * Delivery to a client is modelled as appending to that client's outbox, so
 * the handlers form a transition system over `ServerState`. The pure
 * functions below (`Delivered`, `OnMessage`, `OnClose`) are the
 * specification; the class `Server` performs the same steps in place and is
 * proved to agree with them.
 */
module Presence {
  import opened Wrappers
  import opened JsValues
  import opened ConnectionMap

  /** Opaque handle of one WebSocket connection; handles are never reused. */
  type Conn = nat

  /** What one inbound frame parses to: the fields the handler reads, or a parse failure. */
  datatype Frame =
    | Unparseable
    | Parsed(kind: Field, userId: Field, username: Field, text: Field)

  datatype Status = Online | Offline

  /** The two kinds of frame the server sends. */
  datatype OutMsg =
    | UserStatus(userId: Field, status: Status)
    | Chat(userId: Field, username: Field, text: Field, timestamp: string)

  /** One entry of `wss.clients`: whether its ready state is OPEN, and what it has been sent so far. */
  datatype Client = Client(open: bool, outbox: seq<OutMsg>)

  /** `connectedUsers`: connection to the `userId` its login frame carried. */
  type Registry = JsMap<Conn, Field>

  datatype ServerState = ServerState(connectedUsers: Registry, clients: map<Conn, Client>)

  /** `connectedUsers.get(socket)`: `undefined` both for a missing entry and for a stored `undefined`. */
  function StoredUserId(r: Registry, socket: Conn): Field
  {
    match Get(r, socket)
    case None => None
    case Some(f) => f
  }

  /** Sending `m` to one client: only an OPEN client receives it. */
  function Deliver(c: Client, m: OutMsg): Client
  {
    if c.open then c.(outbox := c.outbox + [m]) else c
  }

  /** `broadcast(m)`: every client of `wss.clients` after the loop. */
  function Delivered(clients: map<Conn, Client>, m: OutMsg): map<Conn, Client>
  {
    map c | c in clients :: Deliver(clients[c], m)
  }

  /** The `message` handler of connection `socket`; `now` is the server clock. */
  function OnMessage(st: ServerState, socket: Conn, frame: Frame, now: string): (r: ServerState)
    ensures r.clients.Keys == st.clients.Keys
    ensures forall s :: s != socket ==> Get(r.connectedUsers, s) == Get(st.connectedUsers, s)
  {
    match frame
    case Unparseable => st
    case Parsed(kind, userId, username, text) =>
      if kind == Some("login") then
        assert forall s :: s != socket ==> Get(Set(st.connectedUsers, socket, userId), s) == Get(st.connectedUsers, s) by {
          forall s | s != socket ensures Get(Set(st.connectedUsers, socket, userId), s) == Get(st.connectedUsers, s) {
            SetOther(st.connectedUsers, socket, userId, s);
          }
        }
        ServerState(Set(st.connectedUsers, socket, userId), Delivered(st.clients, UserStatus(userId, Online)))
      else if kind == Some("chat") then
        st.(clients := Delivered(st.clients, Chat(userId, username, text, now)))
      else
        st
  }

  /**
   * The WebSocket library takes a closing connection out of `wss.clients`
   * before the `close` handler runs; here its ready state stops being OPEN
   * and its outbox is kept for observation.
   */
  function Disconnected(clients: map<Conn, Client>, socket: Conn): map<Conn, Client>
  {
    if socket in clients then clients[socket := clients[socket].(open := false)] else clients
  }

  /** The `close` handler of connection `socket`. */
  function OnClose(st: ServerState, socket: Conn): (r: ServerState)
    ensures r.clients.Keys == st.clients.Keys
    ensures forall s :: s != socket ==> Get(r.connectedUsers, s) == Get(st.connectedUsers, s)
  {
    var clients := Disconnected(st.clients, socket);
    var userId := StoredUserId(st.connectedUsers, socket);
    if Truthy(userId) then
      assert forall s :: s != socket ==> Get(Delete(st.connectedUsers, socket), s) == Get(st.connectedUsers, s) by {
        forall s | s != socket ensures Get(Delete(st.connectedUsers, socket), s) == Get(st.connectedUsers, s) {
          DeleteOther(st.connectedUsers, socket, s);
        }
      }
      ServerState(Delete(st.connectedUsers, socket), Delivered(clients, UserStatus(userId, Offline)))
    else
      st.(clients := clients)
  }

  /** The body of `GET /api/users`: one value per registry entry, in entry order. */
  function OnlineUsers(st: ServerState): (r: seq<Field>)
    ensures |r| == |st.connectedUsers|
    ensures forall s :: HasKey(st.connectedUsers, s) ==> StoredUserId(st.connectedUsers, s) in r
  {
    assert forall s :: HasKey(st.connectedUsers, s) ==> StoredUserId(st.connectedUsers, s) in Values(st.connectedUsers) by {
      forall s | HasKey(st.connectedUsers, s) ensures StoredUserId(st.connectedUsers, s) in Values(st.connectedUsers) {
        var i := IndexOf(st.connectedUsers, s).value;
        assert Values(st.connectedUsers)[i] == StoredUserId(st.connectedUsers, s);
      }
    }
    Values(st.connectedUsers)
  }

  /** True when `after` is `before` with possibly more messages at the end of each outbox. */
  ghost predicate OutboxesExtended(before: map<Conn, Client>, after: map<Conn, Client>)
  {
    before.Keys <= after.Keys &&
    forall c :: c in before ==> before[c].outbox <= after[c].outbox
  }

  // ---------------------------------------------------------------------------
  // Properties of the transition system

  /**
   * `broadcast` appends the message to exactly the OPEN clients and leaves
   * every other client, and the set of clients, as it was.
   */
  lemma BroadcastReachesExactlyOpen(clients: map<Conn, Client>, m: OutMsg)
    ensures Delivered(clients, m).Keys == clients.Keys
    ensures forall c :: c in clients && clients[c].open ==>
      Delivered(clients, m)[c] == Client(true, clients[c].outbox + [m])
    ensures forall c :: c in clients && !clients[c].open ==>
      Delivered(clients, m)[c] == clients[c]
  {
  }

  /**
   * A login frame makes the socket's entry its `userId`, replacing any earlier
   * one; no other socket's entry changes; the registry keeps one entry per
   * socket; and `online` for that `userId` goes to every open client.
   */
  lemma LoginFrameSetsEntry(st: ServerState, socket: Conn, userId: Field, username: Field, text: Field, now: string)
    requires KeysUnique(st.connectedUsers)
    ensures var st' := OnMessage(st, socket, Parsed(Some("login"), userId, username, text), now);
      && StoredUserId(st'.connectedUsers, socket) == userId
      && HasKey(st'.connectedUsers, socket)
      && (forall t :: t != socket ==> Get(st'.connectedUsers, t) == Get(st.connectedUsers, t))
      && KeysUnique(st'.connectedUsers)
      && st'.clients == Delivered(st.clients, UserStatus(userId, Online))
  {
    var r' := Set(st.connectedUsers, socket, userId);
    SetGet(st.connectedUsers, socket, userId);
    forall t | t != socket ensures Get(r', t) == Get(st.connectedUsers, t) {
      SetOther(st.connectedUsers, socket, userId, t);
    }
    SetKeepsUnique(st.connectedUsers, socket, userId);
  }

  /**
   * A chat frame broadcasts its own `userId`, `username` and `text` with the
   * server's timestamp, whatever the registry holds for the socket (also when
   * the socket never logged in, and also for blank text), and leaves the
   * registry untouched.
   */
  lemma ChatFrameBroadcastsVerbatim(st: ServerState, socket: Conn, userId: Field, username: Field, text: Field, now: string)
    ensures var st' := OnMessage(st, socket, Parsed(Some("chat"), userId, username, text), now);
      && st'.connectedUsers == st.connectedUsers
      && st'.clients == Delivered(st.clients, Chat(userId, username, text, now))
  {
  }

  /** A frame that fails to parse, or whose type is neither `login` nor `chat`, changes nothing. */
  lemma OtherFramesIgnored(st: ServerState, socket: Conn, frame: Frame, now: string)
    requires frame.Parsed? ==> frame.kind != Some("login") && frame.kind != Some("chat")
    ensures OnMessage(st, socket, frame, now) == st
  {
  }

  /**
   * Closing a socket whose stored `userId` is truthy removes its entry, keeps
   * every other entry, and sends exactly one `offline` status for that id to
   * the clients that are still open.
   */
  lemma CloseLoggedIn(st: ServerState, socket: Conn)
    requires KeysUnique(st.connectedUsers)
    requires Truthy(StoredUserId(st.connectedUsers, socket))
    ensures var st' := OnClose(st, socket);
      && !HasKey(st'.connectedUsers, socket)
      && |st'.connectedUsers| == |st.connectedUsers| - 1
      && (forall t :: t != socket ==> Get(st'.connectedUsers, t) == Get(st.connectedUsers, t))
      && KeysUnique(st'.connectedUsers)
      && st'.clients == Delivered(Disconnected(st.clients, socket), UserStatus(StoredUserId(st.connectedUsers, socket), Offline))
  {
    var r := st.connectedUsers;
    DeleteGet(r, socket);
    DeleteKeepsUnique(r, socket);
    forall t | t != socket ensures Get(Delete(r, socket), t) == Get(r, t) {
      DeleteOther(r, socket, t);
    }
  }

  /**
   * Closing a socket with no entry, or whose stored `userId` is falsy, leaves
   * the registry as it was and sends nothing to anyone.
   */
  lemma CloseNotLoggedIn(st: ServerState, socket: Conn)
    requires !Truthy(StoredUserId(st.connectedUsers, socket))
    ensures var st' := OnClose(st, socket);
      && st'.connectedUsers == st.connectedUsers
      && st'.clients.Keys == st.clients.Keys
      && forall c :: c in st.clients ==> st'.clients[c].outbox == st.clients[c].outbox
  {
  }

  /** A second `close` of the same socket is a no-op. */
  lemma CloseTwiceIsNoop(st: ServerState, socket: Conn)
    requires KeysUnique(st.connectedUsers)
    ensures OnClose(OnClose(st, socket), socket) == OnClose(st, socket)
  {
    var st1 := OnClose(st, socket);
    if Truthy(StoredUserId(st.connectedUsers, socket)) {
      DeleteGet(st.connectedUsers, socket);
    }
    assert !Truthy(StoredUserId(st1.connectedUsers, socket));
    assert socket in st1.clients ==> !st1.clients[socket].open;
    assert Disconnected(st1.clients, socket) == st1.clients;
  }

  /**
   * A socket that logged in with an empty or missing `userId` keeps its
   * registry entry after it closes, so `GET /api/users` goes on listing that
   * value.
   */
  lemma FalsyLoginOutlivesClose(st: ServerState, socket: Conn, userId: Field, username: Field, text: Field, now: string)
    requires KeysUnique(st.connectedUsers)
    requires !Truthy(userId)
    ensures var st' := OnClose(OnMessage(st, socket, Parsed(Some("login"), userId, username, text), now), socket);
      && HasKey(st'.connectedUsers, socket)
      && StoredUserId(st'.connectedUsers, socket) == userId
  {
    LoginFrameSetsEntry(st, socket, userId, username, text, now);
  }

  /**
   * The online-users query has one value per entry: a login on a socket with
   * no entry appends its `userId` even when another socket already shows the
   * same id, and a login on a socket with an entry replaces that entry's
   * value in place.
   */
  lemma OnlineUsersAfterLogin(st: ServerState, socket: Conn, userId: Field, username: Field, text: Field, now: string)
    ensures var st' := OnMessage(st, socket, Parsed(Some("login"), userId, username, text), now);
      && (!HasKey(st.connectedUsers, socket) ==> OnlineUsers(st') == OnlineUsers(st) + [userId])
      && (HasKey(st.connectedUsers, socket) ==>
            exists i :: 0 <= i < |st.connectedUsers| && st.connectedUsers[i].key == socket &&
              OnlineUsers(st') == OnlineUsers(st)[i := userId])
  {
    var r := st.connectedUsers;
    match IndexOf(r, socket)
    case None =>
      assert Values(Set(r, socket, userId)) == Values(r) + [userId];
    case Some(i) =>
      assert Values(Set(r, socket, userId)) == Values(r)[i := userId];
  }

  /**
   * Every step only appends to outboxes: whatever a client received before,
   * it still has, in the same order, so of two broadcasts every client that
   * gets both gets them in the order they were made.
   */
  lemma StepsOnlyAppend(st: ServerState, socket: Conn, frame: Frame, now: string)
    ensures OutboxesExtended(st.clients, OnMessage(st, socket, frame, now).clients)
    ensures OutboxesExtended(st.clients, OnClose(st, socket).clients)
  {
  }

  /** A client that is no longer open receives nothing from any frame. */
  lemma ClosedClientReceivesNothing(st: ServerState, socket: Conn, frame: Frame, now: string, c: Conn)
    requires c in st.clients && !st.clients[c].open
    ensures c in OnMessage(st, socket, frame, now).clients
    ensures OnMessage(st, socket, frame, now).clients[c] == st.clients[c]
  {
  }

  /**
   * A whole session seen from two open connections `x` and `y`: `x` logs in
   * as `u1`, sends `hi` and closes. Both receive the `online` status and the
   * chat message (the sender gets its own message back); only `y`, still
   * open, receives the `offline` status; the registry ends empty.
   */
  lemma LoginChatCloseScenario(x: Conn, y: Conn, now: string)
    requires x != y
    ensures var st0 := ServerState([], map[x := Client(true, []), y := Client(true, [])]);
      var st1 := OnMessage(st0, x, Parsed(Some("login"), Some("u1"), None, None), now);
      var st2 := OnMessage(st1, x, Parsed(Some("chat"), Some("u1"), Some("alice"), Some("hi")), now);
      var st3 := OnClose(st2, x);
      && st3.connectedUsers == []
      && st3.clients[x] == Client(false, [UserStatus(Some("u1"), Online), Chat(Some("u1"), Some("alice"), Some("hi"), now)])
      && st3.clients[y] == Client(true, [UserStatus(Some("u1"), Online), Chat(Some("u1"), Some("alice"), Some("hi"), now),
                                         UserStatus(Some("u1"), Offline)])
  {
    var st0 := ServerState([], map[x := Client(true, []), y := Client(true, [])]);
    var st1 := OnMessage(st0, x, Parsed(Some("login"), Some("u1"), None, None), now);
    assert st1.connectedUsers == [Entry(x, Some("u1"))];
    var st2 := OnMessage(st1, x, Parsed(Some("chat"), Some("u1"), Some("alice"), Some("hi")), now);
    assert StoredUserId(st2.connectedUsers, x) == Some("u1");
  }

  // ---------------------------------------------------------------------------
  // The server's state, updated in place

  class Server {
    var connectedUsers: Registry
    var clients: map<Conn, Client>

    ghost predicate Valid()
      reads this
    {
      KeysUnique(connectedUsers)
    }

    function State(): ServerState
      reads this
    {
      ServerState(connectedUsers, clients)
    }

    constructor ()
      ensures Valid()
      ensures connectedUsers == [] && clients == map[]
    {
      connectedUsers := [];
      clients := map[];
    }

    /** A new connection joins `wss.clients` as OPEN, with nothing sent to it yet. */
    method Connect(socket: Conn)
      requires socket !in clients
      modifies this
      ensures connectedUsers == old(connectedUsers)
      ensures clients == old(clients)[socket := Client(true, [])]
    {
      clients := clients[socket := Client(true, [])];
    }

    /** `broadcast(m)`: the loop over `wss.clients`. */
    method Broadcast(m: OutMsg)
      modifies this
      ensures connectedUsers == old(connectedUsers)
      ensures clients == Delivered(old(clients), m)
    {
      var pending := clients.Keys;
      while pending != {}
        invariant pending <= clients.Keys
        invariant clients.Keys == old(clients).Keys
        invariant connectedUsers == old(connectedUsers)
        invariant forall c :: c in clients && c in pending ==> clients[c] == old(clients)[c]
        invariant forall c :: c in clients && c !in pending ==> clients[c] == Deliver(old(clients)[c], m)
        decreases pending
      {
        var c :| c in pending;
        if clients[c].open {
          clients := clients[c := clients[c].(outbox := clients[c].outbox + [m])];
        }
        pending := pending - {c};
      }
    }

    /** The `message` handler. */
    method HandleMessage(socket: Conn, frame: Frame, now: string)
      requires Valid()
      modifies this
      ensures Valid()
      ensures State() == OnMessage(old(State()), socket, frame, now)
    {
      match frame
      case Unparseable =>
      case Parsed(kind, userId, username, text) =>
        if kind == Some("login") {
          SetKeepsUnique(connectedUsers, socket, userId);
          connectedUsers := Set(connectedUsers, socket, userId);
          Broadcast(UserStatus(userId, Online));
        } else if kind == Some("chat") {
          Broadcast(Chat(userId, username, text, now));
        }
    }

    /** The `close` handler, after the library has dropped the socket from `wss.clients`. */
    method HandleClose(socket: Conn)
      requires Valid()
      modifies this
      ensures Valid()
      ensures State() == OnClose(old(State()), socket)
    {
      if socket in clients {
        clients := clients[socket := clients[socket].(open := false)];
      }
      var userId := StoredUserId(connectedUsers, socket);
      if Truthy(userId) {
        DeleteKeepsUnique(connectedUsers, socket);
        connectedUsers := Delete(connectedUsers, socket);
        Broadcast(UserStatus(userId, Offline));
      }
    }

    /** `GET /api/users`: `Array.from(connectedUsers.values())`. */
    method ListOnlineUsers() returns (ids: seq<Field>)
      ensures |ids| == |connectedUsers|
      ensures forall i :: 0 <= i < |ids| ==> ids[i] == connectedUsers[i].value
    {
      ids := [];
      for i := 0 to |connectedUsers|
        invariant |ids| == i
        invariant forall j :: 0 <= j < i ==> ids[j] == connectedUsers[j].value
      {
        ids := ids + [connectedUsers[i].value];
      }
    }
  }
}
