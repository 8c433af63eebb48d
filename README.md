# Chat backend: participant registry and message store

A model of a small chat backend's request handlers. The backend has four HTTP endpoints over two
document collections, `participants` and `messages`:

- `POST /participants` registers a name (as intended; see Findings). It first writes a broadcast status message saying that
  the participant entered the room, then writes the participant.
- `GET /participants` lists every participant.
- `POST /messages` stores a message from the sender named in the `user` header.
- `GET /messages` returns a window of the messages relevant to the `user` header: those the user
  sent, those sent to the user, and those sent to the broadcast name `Todos`. The window is the
  JavaScript `slice(-limit)` of that list, or `slice(-100)` when the parsed limit is NaN or 0.

The collections are modelled as sequences in insertion order, held in the fields of the class
`ChatStore` (`chat_server.dfy`). A lookup by name is `FindByName`, an insert is an append, and
reading a whole collection returns the sequence. The handlers that write are methods. Each one
keeps the store invariant `StoreInvariant` (`chat_types.dfy`), which says:

- participant names are valid and pairwise distinct;
- every participant was announced by a status message;
- every message is either such an announcement or a well-formed user post from a registered
  sender.

`GET /messages` is the pure function `Window` (`message_window.dfy`). Lemmas beside it state the
filter's soundness, completeness and order, and the exact slice for each kind of limit.

Modelling choices:

- A request field or header is `Option<string>`. `None` means absent or not a string; the
  validator rejects both.
- The clock readings (`Date.now()` and the `HH:mm:ss` time string) are parameters.
- Store failures are a `StoreFault` parameter. `FailOnCall(i)` makes the handler's i-th store
  call throw; the calls before it take effect. So a failure while inserting the participant
  leaves the announcement stored, as the handler's sequence of awaits does.
- The parsed `limit` is `Option<int>`, with `None` for NaN.

## Model

| member | source | states |
|---|---|---|
| `ChatTypes.ValidPost` | src/index.js:93-104 | A post passes validation exactly when every field is present and the message it builds is a well-formed user post in the sense of the store invariant; an accepted post never has type `status` |
| `ChatTypes.FindByName` | src/index.js:44-46 | The lookup finds a participant exactly when one with that name is stored, and what it returns is a stored participant with that name |
| `ChatTypes.AnnouncePreservesInvariant` | src/index.js:53-59 | Appending the entry announcement for a valid name keeps the store invariant and makes the name announced |
| `ChatTypes.AdmitPreservesInvariant` | src/index.js:44-61 | Appending an announced participant with a new valid name keeps names pairwise distinct and the invariant intact, and registers the name |
| `ChatTypes.PostPreservesInvariant` | src/index.js:110-118 | Appending a well-formed post from a registered sender keeps the invariant |
| `ChatTypes.StatusMessagesAreAnnouncements` | src/index.js:53-59 | In a store that keeps the invariant, every message of type `status` is the broadcast "entrar na sala..." announcement, so user posts never have type `status` |
| `ChatTypes.RegistrationRefusedAsWritten` | src/index.js:27-41 | As written, the participant validator refuses every name, because the validated object carries `lastStatus`, a key the schema does not declare |
| `ChatTypes.ValidNameRefusedAsWritten` | src/index.js:32-36 | A name that meets the 1 to 30 character rule is still refused by the validator as written |
| `MessageWindow.Inbox` | src/index.js:132-134 | The filtered list is no longer than the store, and every message in it is stored and relevant to the user |
| `MessageWindow.InboxMembership` | src/index.js:132-134 | The filter is sound and complete: a message is in the filtered list if and only if it is stored and sent by, sent to, or broadcast to the user |
| `MessageWindow.InboxAppend` | src/index.js:132-134 | Filtering distributes over concatenation, so the filtered list keeps insertion order |
| `MessageWindow.SliceFrom` | src/index.js:138-144 | `slice(start)` returns a suffix: for a negative start, the last min(-start, n) elements; otherwise all but the first min(start, n) |
| `MessageWindow.Window` | src/index.js:126-145 | The response is a contiguous suffix of the filtered list, and each returned message is stored and relevant to the user |
| `MessageWindow.WindowDefault` | src/index.js:142-144 | With the limit absent, NaN or 0, the response is exactly the last min(100, n) relevant messages |
| `MessageWindow.WindowPositiveLimit` | src/index.js:138-140 | With a positive limit k, the response is exactly the last min(k, n) relevant messages |
| `MessageWindow.WindowNegativeLimit` | src/index.js:138-140 | With a negative limit k, the response is the relevant messages minus the first min(-k, n) of them |
| `MessageWindow.WindowShowsNewest` | src/index.js:132-145 | After a relevant message is stored, a window whose limit is absent, zero or positive ends with that message |
| `MessageWindow.WindowIgnoresIrrelevant` | src/index.js:132-134 | Storing a message that is irrelevant to a user leaves that user's window unchanged |
| `ChatServer.ChatStore.Register` | src/index.js:25-67 | Returns 201 exactly for a valid new name with no store failure. An invalid name gives 422 and a known name gives 409, both leaving the store unchanged. Success appends the announcement, then the participant. A store failure gives 500, keeping whatever was inserted before it. The invariant is preserved |
| `ChatServer.ChatStore.ListParticipants` | src/index.js:70-78 | Returns 200 with every participant in store order, or 500 and no participant list when the read fails; nothing changes |
| `ChatServer.ChatStore.PostMessage` | src/index.js:81-124 | Returns 201 exactly when the post validates, its sender is registered and the store does not fail; then it appends exactly that message, never of type `status`. Otherwise it returns 422 and stores nothing. Participants never change and the invariant is preserved |
| `ChatServer.ChatStore.ListMessages` | src/index.js:126-150 | Returns 200 with the message window for the user and limit, without changing the store |
| `Scenarios.RegisterTwice` | src/index.js:44-62 | On a fresh store, registering a valid name returns 201 and registering it again returns 409 |
| `Scenarios.PostFromStranger` | src/index.js:111-116 | A post from a sender who never registered returns 422 and stores nothing |
| `Scenarios.DefaultWindowOfBroadcasts` | src/index.js:132-144 | Two stored broadcast messages make up the whole default window of any reader, oldest first |
| `Scenarios.JoinAndPost` | src/index.js:118-144 | After a participant joins and broadcasts, any reader's default window is the announcement followed by the post |

## Left out

- Express, cors and dotenv setup, the database connection and `app.listen` (src/index.js:1-22, 152): framework wiring and I/O.
- Concurrency: requests are modelled one at a time. So the race between two registrations of the same name, which can both pass the lookup, is not modelled.
- A failure of the store read in `GET /messages`: that handler has no `catch`, so the request gets no response at all. `ListMessages` assumes the read succeeds.
- The `_id` that the database adds to each inserted document, and console logging.
- `parseInt`: `limit` arrives already parsed. A digit string so long that `parseInt` yields `Infinity` or `-Infinity` is not covered: `Infinity` would return every relevant message, and `-Infinity` (so `slice(Infinity)`) none.
- Response texts: the validator's error text in the 422 bodies, the fixed texts sent with 422 by `POST /messages`, and the status text (such as "Internal Server Error") that a bare status code sends as its body. Only the status codes are modelled.
- The validator's unknown-key rule is modelled only for the participant object (see Findings). The message object holds exactly the declared keys, so the rule never fires there.
- String lengths count Dafny characters, not UTF-16 code units. A name with characters outside the Basic Multilingual Plane can have a different length here than in the validator's `max(30)`.
- `ChatTypes.ValidPost`: the `time` field is checked to be non-empty, as the validator does. The formatted clock reading is never empty, so this branch cannot occur in practice.
- `ChatServer.ChatStore.Register`: requires a non-empty `time`, because the `HH:mm:ss` clock reading it stamps on the announcement is never empty. Announcements in the store invariant have a non-empty time accordingly.

## Findings

| source | as written | input that shows it | evidently intended | confidence | as-written member | corrected member |
|---|---|---|---|---|---|---|
| src/index.js:27-36 | The object validated against a schema declaring only `name` also carries `lastStatus`. An object schema refuses undeclared keys by default, so every registration is answered 422 | `POST /participants` with body `{"name": "Alice"}` | Validate only the name (1 to 30 characters), so a valid new name is registered with 201 | high; not executed | `ChatTypes.RegistrationRefusedAsWritten` | `ChatServer.ChatStore.Register` |
