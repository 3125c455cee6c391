# SICTChat core, modelled in Dafny

SICTChat is a small real-time chat service. Users register and log in over
HTTP. Each browser then opens a WebSocket and announces its user id, and the
server broadcasts chat messages and online/offline presence changes to every
open connection. The repository also contains a stand-alone Win32 snake game.

This project models four sequential cores of that code and proves properties
of them:

- **Presence registry and frame handler** (`presence.dfy`, `connection_map.dfy`).
  - The server's `connectedUsers` map is modelled with JavaScript `Map`
    semantics: an insertion-ordered association list whose keys are unique.
  - `wss.clients` is modelled as a map from connection handle to an OPEN flag
    and an outbox.
  - `broadcast` appends a message to the outbox of every open client.
  - The `message` and `close` handlers are pure transition functions
    (`OnMessage`, `OnClose`) over that state. The class `Server` performs the
    same steps in place and is proved to agree with those functions.
- **Credential store** (`credentials.dfy`). Registration and login work over
  a sequence of user records.
  - Registration validates its fields, rejects an exactly equal email, and
    appends one record that holds the bcrypt hash.
  - Login finds the first record with the email. An unknown email and a wrong
    password get the same 401 answer.
  - bcrypt is a pair of functions handed in as a `Hasher`.
    `Sound(h)` states bcrypt's promise that a password matches every hash
    made from it.
  - The uuid, the salt and the creation time are parameters.
- **Chat page's online-users list and send guard** (`chat_client.dfy`).
  These functions are described as they behave once the page's start-up
  handler has registered them, which needs a `hashCode` function (see
  "Left out").
  - `usersList` is the sequence of `<li>` texts.
  - `updateOnlineUsers` replaces the list with the input minus the user's own
    id.
  - `updateUserStatus` appends an absent id or removes the first match.
  - The submit handler sends nothing when the trimmed text is empty.
- **Snake rules** (`snake.dfy`).
  - `MoveSnake` is one tick over the globals `snake`, `food`, `dir`,
    `gameOver` and `score` on the 20 × 20 grid.
  - The `WM_KEYDOWN` handler turns the snake but never straight back.
  - The new food position, drawn by `rand()` in the game, is a parameter.

`wrappers.dfy` holds the `Option` type. `js_values.dfy` holds how a handler
sees a JSON field: absent or a string, and its JavaScript truthiness.

Notable behaviours of the code, all of which the model keeps:

- The server does not trim chat text and broadcasts blank messages. Only the
  browser's submit handler refuses them.
- A chat frame from a connection that never logged in is still broadcast,
  with whatever `userId` and `username` the frame carries.
- The online-users query returns one value per registry entry. It is not a
  set of distinct ids, so a user with two tabs is listed twice.
- The `close` handler removes the entry only when the stored id is truthy. A
  connection that logged in with an empty or missing id stays in the registry
  after it closes (`FalsyLoginOutlivesClose`).
- A failed send does not evict a connection. `broadcast` only skips clients
  whose ready state is not OPEN.
- A login frame without a `userId` makes the server broadcast an `online`
  status without one. If the chat page gets as far as listening for
  statuses, which needs a `hashCode` function, then it finds no matching
  entry and appends an empty one each time it receives such a status
  (`MissingIdListsEmptyEntry`).

## Model

| member | source | states |
|---|---|---|
| `ConnectionMap.IndexOf` | server/server.js:83 | the position found for a key is the first entry with that key; none is found exactly when no entry has it |
| `ConnectionMap.Get` | server/server.js:83 | `get(k)` finds a value exactly when some entry has key `k`, and that value belongs to such an entry |
| `ConnectionMap.Set` | server/server.js:61 | `set(k, v)` adds an entry only for a new key and keeps every entry with another key at its position |
| `ConnectionMap.Delete` | server/server.js:85 | `delete(k)` removes one entry exactly when the key is present and adds none |
| `ConnectionMap.ValuesAgreeWithGet` | server/server.js:181 | with unique keys, `Array.from(map.values())` holds at each entry's position what `get` answers for that entry's key |
| `ConnectionMap.SetGet` | server/server.js:61 | after `set(k, v)`, `get(k)` yields `v` |
| `ConnectionMap.SetOther` | server/server.js:61 | `set(k, v)` leaves what every other key maps to unchanged |
| `ConnectionMap.SetKeepsUnique` | server/server.js:61 | `set` keeps one entry per key |
| `ConnectionMap.SetKeys` | server/server.js:61 | re-setting a present key keeps the entry order; a new key is appended at the end |
| `ConnectionMap.DeleteGet` | server/server.js:85 | after `delete(k)`, `get(k)` finds nothing |
| `ConnectionMap.DeleteOther` | server/server.js:85 | `delete(k)` leaves what every other key maps to unchanged |
| `ConnectionMap.DeleteKeepsUnique` | server/server.js:85 | `delete` keeps keys unique |
| `ConnectionMap.DeleteKeys` | server/server.js:85 | `delete` takes out the first entry with the key and keeps the other entries in their order |
| `ConnectionMap.DeleteAbsent` | server/server.js:85 | deleting a key that is not there changes nothing |
| `Presence.OnMessage` | server/server.js:55-80 | a frame never adds or removes a client, and `get` answers as before for every socket but the receiving one, including an entry that holds `undefined` |
| `Presence.OnClose` | server/server.js:82-93 | a close never adds or removes a client, and `get` answers as before for every socket but the closing one, including an entry that holds `undefined` |
| `Presence.OnlineUsers` | server/server.js:180-183 | the query has one value per registry entry, and every stored id is among them |
| `Presence.BroadcastReachesExactlyOpen` | server/server.js:43-49 | a broadcast appends the message to exactly the OPEN clients; closed clients and the client set are untouched |
| `Presence.Server.Broadcast` | server/server.js:43-49 | the loop over `wss.clients` yields exactly `Delivered` of the old clients and leaves the registry alone |
| `Presence.LoginFrameSetsEntry` | server/server.js:59-66 | a login frame sets the socket's entry to the frame's `userId`, replacing any earlier one; `get` answers as before for every other socket; keys stay unique; `online` goes to every open client |
| `Presence.ChatFrameBroadcastsVerbatim` | server/server.js:67-75 | a chat frame broadcasts its own `userId`, `username` and `text` with the server timestamp and does not read or change the registry, even for a socket that never logged in or for blank text |
| `Presence.OtherFramesIgnored` | server/server.js:56-79 | an unparseable frame, or one whose type is neither `login` nor `chat`, changes neither the registry nor any outbox |
| `Presence.CloseLoggedIn` | server/server.js:82-91 | closing a socket with a truthy stored id removes that one entry, leaves `get` answering as before for every other socket, and sends exactly one `offline` status to the clients still open |
| `Presence.CloseNotLoggedIn` | server/server.js:82-93 | closing a socket with no entry or a falsy id leaves the registry as it was and sends nothing |
| `Presence.CloseTwiceIsNoop` | server/server.js:82-91 | a repeated close of the same socket changes nothing |
| `Presence.FalsyLoginOutlivesClose` | server/server.js:59-91 | a socket that logged in with an empty or missing id keeps its registry entry after closing |
| `Presence.OnlineUsersAfterLogin` | server/server.js:180-183 | a login on a new socket appends its id to the online list even when the id is already listed; a re-login replaces the value at the socket's position |
| `Presence.StepsOnlyAppend` | server/server.js:43-49 | no step removes or reorders what a client has received, so broadcasts arrive in the order they are made |
| `Presence.ClosedClientReceivesNothing` | server/server.js:45 | a client that is no longer OPEN receives nothing from any frame |
| `Presence.LoginChatCloseScenario` | server/server.js:52-93 | login, chat and close by one of two connections: both get `online` and the chat, including the sender; only the other gets `offline`; the registry ends empty |
| `Presence.Server.constructor` | server/server.js:40 | the server starts with an empty registry and no clients |
| `Presence.Server.Connect` | server/server.js:52 | a new connection joins the clients as OPEN with an empty outbox; the registry is untouched |
| `Presence.Server.HandleMessage` | server/server.js:55-80 | the in-place handler keeps keys unique and reaches exactly `OnMessage` of the old state |
| `Presence.Server.HandleClose` | server/server.js:82-93 | the in-place handler keeps keys unique and reaches exactly `OnClose` of the old state |
| `Presence.Server.ListOnlineUsers` | server/server.js:180-183 | the query returns one value per registry entry, in entry order, duplicates included |
| `Credentials.FindByEmail` | server/server.js:157 | `find` yields the first record whose email is exactly equal; none is found exactly when no record has it |
| `Credentials.RegisterOutcome` | server/server.js:99-136 | registration keeps the old records as a prefix and adds at most one; it succeeds exactly when it adds one, and every refusal is a 400 |
| `Credentials.Login` | server/server.js:144-172 | login fails only with the 400 for a missing field or the 401 "Invalid credentials"; a success needs a non-empty email and answers the id and username of the first record with that email |
| `Credentials.RegisterRejectsMissingField` | server/server.js:104-106 | a missing or empty username, email or password gives 400 "All fields are required" with the store unchanged |
| `Credentials.RegisterRejectsDuplicate` | server/server.js:111-114 | an email exactly equal to any record's gives 400 "Email already in use" with the store unchanged |
| `Credentials.RegisterAppendsOneRecord` | server/server.js:116-136 | registration succeeds exactly for three non-empty fields and a new email; it then appends one record holding the hash of the password, keeps the old records, and answers that record's id and username |
| `Credentials.RegisterKeepsEmailsUnique` | server/server.js:111-129 | registration never lets two records share an email |
| `Credentials.LoginFailuresIndistinguishable` | server/server.js:157-166 | an unknown email and a wrong password both give 401 "Invalid credentials" |
| `Credentials.LoginSucceedsOnFirstMatch` | server/server.js:144-172 | login succeeds exactly when the password matches the first record with the email, and answers that record's id and username; a missing field gives 400 and every other failure 401 |
| `Credentials.RegisterThenLogin` | server/server.js:99-172 | with a sound bcrypt, logging in right after a successful registration yields the registered id and username |
| `Credentials.UserStore.constructor` | server/server.js:19-22 | a fresh store holds no records |
| `Credentials.UserStore.Register` | server/server.js:99-141 | the in-place register keeps emails unique and yields exactly `RegisterOutcome`'s response and records |
| `ChatClient.FirstIndex` | public/scripts/chat.js:130 | `find` over the list yields the first entry equal to the id; none is found exactly when the id is absent |
| `ChatClient.Without` | public/scripts/chat.js:112-123 | the replacement list never holds the user's own id, is no longer than the input, and holds only ids of the input |
| `ChatClient.StatusUpdate` | public/scripts/chat.js:126-143 | a status update changes the length by at most one and lists nothing new but the text of the status's id |
| `ChatClient.WithoutAppend` | public/scripts/chat.js:116-121 | handling one more input id extends the list by that id unless it is the user's own |
| `ChatClient.WithoutIsFilter` | public/scripts/chat.js:112-123 | the replacement list keeps the input's order and duplicates, never contains the own id, and keeps every other id's count |
| `ChatClient.RemoveFirstRemovesOne` | public/scripts/chat.js:138-141 | an `offline` status removes exactly the first entry equal to the id and keeps the rest in order; an absent id leaves the list unchanged |
| `ChatClient.OwnStatusIgnored` | public/scripts/chat.js:127 | a status for the user's own id leaves the list unchanged |
| `ChatClient.OnlineAddsIfAbsent` | public/scripts/chat.js:132-137 | an `online` status appends the id at the end when it is absent and otherwise leaves the list as it was, so the other entries keep their order |
| `ChatClient.StatusUpdateKeepsNoDuplicates` | public/scripts/chat.js:126-143 | the only status update that gives a duplicate-free list a duplicate is an `online` status without an id, which appends an empty entry |
| `ChatClient.MissingIdListsEmptyEntry` | public/scripts/chat.js:126-143 | an `online` status without an id appends an empty entry every time, so two of them list it twice; any other status without an id changes nothing |
| `ChatClient.BlankPrefix` | public/scripts/chat.js:65 | the count of leading characters `trim()` removes: all of them white space, and the next one (if any) is not |
| `ChatClient.BlankSuffixStart` | public/scripts/chat.js:65 | where the trailing run that `trim()` removes begins: everything after it is white space, and the character before it (if any) is not |
| `ChatClient.Trim` | public/scripts/chat.js:65 | the trimmed text is no longer than the input and, when not empty, starts and ends with a character that is not white space |
| `ChatClient.TrimSpec` | public/scripts/chat.js:65 | the trimmed text is the input with a white-space prefix and a white-space suffix cut off; it is empty exactly when the input is all white space, and otherwise has no white space at either end |
| `ChatClient.Submit` | public/scripts/chat.js:61-75 | nothing is sent exactly when the input is all white space; otherwise the frame holds the user's id and name and the trimmed text |
| `ChatClient.OnlineUsersPanel.UpdateOnlineUsers` | public/scripts/chat.js:112-123 | the loop leaves the list equal to the input minus the own id |
| `ChatClient.OnlineUsersPanel.UpdateUserStatus` | public/scripts/chat.js:126-143 | the in-place update, for a status with or without an id, yields exactly `StatusUpdate` of the old list |
| `Snake.Step` | snake.cpp:55-88 | a tick keeps the direction, grows the snake by at most one segment, and changes the score by exactly 10 per segment grown |
| `Snake.Turn` | snake.cpp:134-141 | a key press never sets the direction opposite to the current one, and a key other than an arrow leaves it alone |
| `Snake.StepWhenOverIsNoop` | snake.cpp:56 | once the game is over, a tick changes nothing |
| `Snake.AdvanceMovesOneCell` | snake.cpp:58-64 | the candidate head is the old head moved one cell in the current direction; moving back the opposite way returns to it |
| `Snake.StepCollision` | snake.cpp:66-77 | a head off the grid or on any segment, tail included, sets `gameOver` and leaves snake, score and food unchanged |
| `Snake.StepEats` | snake.cpp:80-84 | eating puts the food cell in front of the old snake, grows it by one, adds exactly 10 to the score and places the new food |
| `Snake.StepShifts` | snake.cpp:79-87 | any other move puts the head in front and drops the last cell; length, score and food are unchanged |
| `Snake.PrependKeepsWellFormed` | snake.cpp:80-87 | a free on-grid head in front, with or without the tail dropped, keeps segments on the grid and pairwise distinct |
| `Snake.StepKeepsInvariant` | snake.cpp:55-88 | every tick keeps segments on the grid and pairwise distinct, food on the grid, and the score at 10 per segment grown |
| `Snake.InitialSatisfiesInvariant` | snake.cpp:14-18 | the start state satisfies that invariant |
| `Snake.SnakeFitsGrid` | snake.cpp:8-18 | a reachable snake has at most 400 segments, so the score stays within 0..3990 and fits an `int` |
| `Snake.TurnFollowsArrow` | snake.cpp:134-141 | an arrow key sets its own direction unless that is the opposite of the current one, which it ignores; any other key changes nothing |
| `Snake.ReversalIntoNeckEndsGame` | snake.cpp:134-143 | two presses between ticks can reverse the direction, and a snake of two or more segments that reverses hits its neck and ends the game |
| `Snake.Game.constructor` | snake.cpp:14-18 | the globals start as one centred segment moving right with score 0, which satisfies the invariant |
| `Snake.Game.HitsSnake` | snake.cpp:72-77 | the loop over the segments reports a hit exactly when the head is on some segment |
| `Snake.Game.MoveSnake` | snake.cpp:55-88 | the in-place tick keeps the invariant and yields exactly `Step` of the old globals |
| `Snake.Game.KeyDown` | snake.cpp:134-141 | a key press sets `dir` by the turning rule and changes no other global |

## Left out

- Persistence of the user store: creating the data directory, reading and writing `users.json`, and resetting it when corrupt (server/server.js:12-30, 109, 130, 154). The store is in-memory state. A failing read or write, and the 500 "Registration failed"/"Login failed" answers from the `catch` blocks, are not modelled.
- Concurrent registrations: each request is one atomic step. Interleaving at the `await` between the duplicate check and the push (server/server.js:112-129) is not covered.
- bcrypt and uuid are foreign calls. Hashing and comparison are a `Hasher` parameter, with bcrypt's guarantee stated as the `Sound` predicate. The id, the salt and every timestamp (`new Date().toISOString()`) are parameters.
- JSON parsing and serialisation: a frame arrives already parsed, or as `Unparseable`. Fields are absent or strings. Numbers, booleans, `null` and objects in a field are not modelled. A frame that parses to a non-object collapses into `Unparseable`, which the handler also ignores.
- The WebSocket library: connection upgrade, the actual send, and send errors. The library's removal of a closing connection from `wss.clients` is modelled only as that client's OPEN flag going false before the `close` handler runs.
- Express routing, static files, the HTML routes, `app.listen` and the upgrade hook (server/server.js:33-37, 185-208). Console logging is also left out.
- public/scripts/auth.js: tab switching, `fetch` calls and `sessionStorage`. It holds no logic beyond what the server model covers.
- The start-up failure of the chat page is not modelled. public/scripts/chat.js:18 calls `hashCode`, which no script of the repository defines. As written, the `DOMContentLoaded` handler throws there, so it never opens the WebSocket and never registers the `message` and `submit` listeners. `updateOnlineUsers`, `updateUserStatus` and the submit guard are then never reached. The `ChatClient` module describes them as if the handler got past line 18, with `hashCode` supplied.
- The chat page's DOM work is left out: `displayMessage`, `formatTime`, avatar colouring, logout, the redirect when no user is stored, the `fetch` of `/api/users`, clearing the input after sending, and the unused `onlineUsers` map (public/scripts/chat.js:1-31, 80-109, 145-149).
- `ChatClient.OnlineUsersPanel.UpdateOnlineUsers`: the ids are taken as strings. An `undefined` entry of the server's list, which arrives as `null`, is not modelled.
- `Trim`'s white space is the fixed list of code points in `IsJsWhitespace` (the ECMAScript white-space and line-terminator characters). An engine built on a newer Unicode version could strip more.
- snake.cpp drawing, `WinMain`, the window procedure's other messages, the timer and `rand()` (snake.cpp:22-53, 90-123, 127-133, 142-151). Every food position is a parameter on the grid, because `rand() % WIDTH` and `rand() % HEIGHT` always give one.
