# A verified model of the chat server's core

The chat server keeps three SQLite tables: `users`, `contacts` and `messages`. It also keeps a registry of live
WebSocket connections, and serves REST routes for logging in, listing contacts, adding contacts, reading a
conversation and sending a message. When a message is sent, the server pushes a `new_message` frame to the
recipient's socket if that recipient is registered and its socket is open.

This project models that core (`server/server.js`) in Dafny. It has seven modules:

- `Wrappers`: `Option`.
- `JsStrings`: the JavaScript string operations the server relies on, over `seq<char>`:
  - `trim`, with exactly the ECMAScript WhiteSpace and LineTerminator characters;
  - `split(' ')`, which keeps empty pieces;
  - `join`;
  - `toUpperCase`, on ASCII letters;
  - `substring(0, n)`;
  - the character-by-character `<` used by the default `Array.prototype.sort`.

  A `char` here is a Unicode code point, where JavaScript's strings hold UTF-16 code units; "Left out" says where
  this matters.
- `ChatUtil`: `getInitials`, `getAvatarColor` and `getConversationId` as functions.
- `Clients`: the `clients` `Map`. It is a sequence of entries in insertion order, because a JavaScript `Map`
  keeps an existing key's place on `set` and iterates in insertion order. This module also models the close
  handler's scan, which stops at the first entry holding the closed socket.
- `Tables`: the rows of the three tables, with the constraints declared on them:
  - UNIQUE usernames;
  - UNIQUE `(user_id, contact_username)` pairs;
  - AUTOINCREMENT ids;
  - NOT NULL columns.
  
  It also holds the queries: the user lookup, `INSERT OR IGNORE`, the contact `LEFT JOIN` and the history
  `ORDER BY timestamp`.
- `Server`: class `ChatServer` holds these tables and the registry as fields. It also holds:
  - the set of sockets whose `readyState` is OPEN;
  - a counter that hands out fresh sockets;
  - the `outbox`, the sequence of frames pushed so far.
  
  Each route that writes and each socket event is a method that updates these fields. The read-only routes
  (`ListContacts`, `GetMessages`) and the frame `notifyUser` would send (`Delivery`) are functions of the fields.
  `Valid()` is the invariant that every method keeps: the table constraints, a registry holding each username
  once, and only sockets that were handed out.
- `Scenarios`: the routes used in sequence:
  - logging in twice;
  - a blank login;
  - a delivered message;
  - re-registering and then closing the old socket;
  - adding a contact twice.

What the model abstracts:
- Sockets are natural-number channel ids.
- Reading the clock, the network and the disk is left out.
- A request body's fields become parameters. A field the client may omit is an `Option`: the login username,
  the message text, image and timestamp.
- Each HTTP error reply becomes one `Error` value.

In several places the code does less than the application intends. The model follows the code:

- **Separator in usernames.** Usernames are meant not to contain the conversation separator `"__"`, but no
  route checks for it. So two different pairs can share a conversation (`ConversationIdCollision`). The
  identifier determines its pair only for usernames without `'_'` (`ConversationIdInjective`).
- **Contact rows without a user.** The contact list is meant to show only contacts that have a user row. The
  query is a `LEFT JOIN`, which keeps such rows with NULL initials and colour (`JoinRow`, `ContactRow`). The
  invariant `EdgesValid` shows that this never happens through the routes modelled here.
- **Login race.** Two simultaneous first logins of one name are meant to return the same user, by fetching it again after
  the second insert fails. The code does not do this: it answers "Error creating user". Sequentially this branch cannot be reached (see "Left out").
- **Unchecked fields.** Messages are accepted with no text and no image, and the sender is not checked against
  the users table. The model does the same.
- **Empty contact name.** `getAvatarColor("")` is `undefined` (`charCodeAt(0)` is NaN). Its NULL violates
  `color NOT NULL`, so adding the contact `""` when no user of that name exists answers "Error creating contact
  user" (`NewUserRow`, `Server.ChatServer.AddContact`).

## Model

| member | source | states |
|---|---|---|
| JsStrings.TrimStart | server/server.js:143 | the result is a suffix of the input, everything dropped is white space, and the result does not start with white space |
| JsStrings.TrimEnd | server/server.js:143 | the result is a prefix of the input, everything dropped is white space, and the result does not end with white space |
| JsStrings.Trim | server/server.js:143-147 | `trim` returns a slice of the input with only white space around it, and its ends are not white space |
| JsStrings.TrimEmptyIffBlank | server/server.js:143 | `!username.trim()` holds exactly when the name is white space only, in both directions |
| JsStrings.TrimIdempotent | server/server.js:147 | trimming a trimmed name changes nothing |
| JsStrings.Split | server/server.js:71 | `split` yields at least one piece, and no piece contains the separator |
| JsStrings.JoinSplit | server/server.js:71-73 | joining the pieces of a split with the separator gives back the string |
| JsStrings.SplitJoin | server/server.js:71-73 | splitting a join of separator-free pieces gives back the pieces |
| JsStrings.SplitFree | server/server.js:71 | a string without the separator splits into itself alone |
| JsStrings.SplitAtSeparator | server/server.js:71 | splitting at the first separator takes the separator-free prefix off as one piece |
| JsStrings.Join | server/server.js:92 | a join starts with its first piece, followed by the separator when there are more pieces; the round trips are in JoinSplit and SplitJoin |
| JsStrings.JoinPair | server/server.js:92 | joining two names puts the separator between them |
| JsStrings.UpperChar | server/server.js:74 | a lower-case ASCII letter becomes the capital at the same place in the alphabet, and every other character is kept |
| JsStrings.ToUpper | server/server.js:74 | `toUpperCase` keeps the length and maps each character on its own |
| JsStrings.Prefix | server/server.js:75 | `substring(0, n)` is the first `min(n, length)` characters |
| JsStrings.Less | server/server.js:92 | a name sorts only before a different name; the order laws are in LessIrreflexive, LessAsymmetric, LessTotal and LessTransitive |
| JsStrings.LessIrreflexive | server/server.js:92 | no name sorts before itself |
| JsStrings.LessAsymmetric | server/server.js:92 | two names never each sort before the other |
| JsStrings.LessTotal | server/server.js:92 | of two different names one sorts first |
| JsStrings.LessTransitive | server/server.js:92 | the sort order is transitive |
| ChatUtil.Words | server/server.js:71-72 | the words are the non-empty pieces: no empty word, and each non-empty piece as often as it occurs |
| ChatUtil.WordsAppend | server/server.js:71-72 | the words of two runs of pieces are the words of the first run followed by those of the second, so the words keep the pieces' order |
| ChatUtil.Heads | server/server.js:72-73 | there is at most one head per piece; HeadsOfWords gives each one |
| ChatUtil.HeadsOfWords | server/server.js:72-73 | `map(word => word[0]).join('')` is the first character of each non-empty piece, in order: an empty piece adds nothing |
| ChatUtil.Initials | server/server.js:69-76 | initials have at most two characters |
| ChatUtil.InitialsOfWords | server/server.js:69-76 | the initials are the upper-cased first characters of the first two words, as many as there are words up to two |
| ChatUtil.InitialsStart | server/server.js:69-76 | a name not starting with a space has initials, and they start with its own first character upper-cased |
| ChatUtil.AvatarColor | server/server.js:78-89 | the colour is defined exactly for a non-empty name, and it is one of the six palette entries |
| ChatUtil.AvatarColorOfFirst | server/server.js:87 | the colour depends on the first character only |
| ChatUtil.SortPair | server/server.js:92 | SortPairSorted states what the sorted pair holds |
| ChatUtil.SortPairSorted | server/server.js:92 | `[user1, user2].sort()` holds the two names, and the second does not sort before the first |
| ChatUtil.ConversationId | server/server.js:91-93 | the properties of the identifier are in ConversationIdSmallerFirst, ConversationIdSymmetric, ConversationIdCollision and ConversationIdInjective |
| ChatUtil.ConversationIdSmallerFirst | server/server.js:91-93 | the identifier is the smaller name, `"__"`, then the larger one |
| ChatUtil.ConversationIdSymmetric | server/server.js:91-93 | both parties of a pair compute the same identifier |
| ChatUtil.ConversationIdCollision | server/server.js:91-93 | the pairs ("a__b", "c") and ("a", "b__c") differ but share an identifier |
| ChatUtil.FirstUnderscore | server/server.js:92 | in a joined pair whose first name has no `'_'`, the first `'_'` follows that name |
| ChatUtil.JoinedUnique | server/server.js:92 | names without `'_'` are recovered from their joined form |
| ChatUtil.ConversationIdInjective | server/server.js:91-93 | for names without `'_'`, equal identifiers mean the same unordered pair |
| Clients.IndexOf | server/server.js:96 | the position found holds the key and no earlier entry does; none means no entry holds it |
| Clients.IndexOfAt | server/server.js:96 | with unique keys, each entry is found at its own position |
| Clients.AppendKeepsOthers | server/server.js:106 | appending a new key moves no other key |
| Clients.ReplaceKeepsOthers | server/server.js:106 | replacing a key's socket keeps keys unique and moves no other key |
| Clients.RemoveKeepsOthers | server/server.js:109 | removing an entry keeps keys unique and drops that key. An earlier key keeps its place and a later one moves up by one |
| Clients.Get | server/server.js:131 | `get` finds a socket exactly when an entry has the key, and that entry holds the socket |
| Clients.Set | server/server.js:106 | after `set` the key maps to the new socket and other keys are unchanged. Every key already present keeps its position, a new key goes last, and no other entry appears |
| Clients.SetTwice | server/server.js:106 | setting a key twice is setting it once to the second socket |
| Clients.Delete | server/server.js:109 | after `delete` the key is absent and other keys map as before. An absent key leaves the map as it was. Otherwise keys before the removed one keep their place and keys after it move up by one |
| Clients.AfterClose | server/server.js:119-124 | the close scan removes at most one entry and adds none; AfterCloseAt, AfterCloseNone and CloseEffect say which |
| Clients.AfterCloseAt | server/server.js:119-124 | the close scan removes exactly the first entry on the socket |
| Clients.AfterCloseNone | server/server.js:119-125 | with no entry on the socket the scan changes nothing |
| Clients.FindByChannel | server/server.js:119-125 | the loop finds the first entry whose socket is the closed one, or reports that none is |
| Clients.CloseEffect | server/server.js:117-126 | closing removes at most one entry and only an entry on that socket; other usernames keep their socket. If any username was on the socket, exactly one entry goes, even when several were |
| Clients.FirstOnChannel | server/server.js:119-120 | when some entry is on the socket there is a first one |
| Clients.CloseKeepsReRegistration | server/server.js:117-126 | a username re-registered on a new socket survives the closing of its old socket |
| Tables.UsersValid | server/server.js:30-36 | the constraints of `users`: UNIQUE names, AUTOINCREMENT ids from 1 in insertion order, below the next id, and initials and colour derived from the name |
| Tables.FindUser | server/server.js:149 | the lookup returns a row of that name, or none when no row has it |
| Tables.NewUserRow | server/server.js:159-164 | an insert is accepted exactly when the name is new and not empty (an empty name gives a NULL colour). The row gets the next id and the derived initials and colour |
| Tables.FindUserAfterInsert | server/server.js:162-171 | after an insert the new row is found under its name and every other name finds what it found before |
| Tables.FindUserHasId | server/server.js:236 | a row that is found carries an id of the table |
| Tables.FindUserAt | server/server.js:32 | with UNIQUE usernames the lookup by a row's name finds that row |
| Tables.InsertKeepsUsersValid | server/server.js:30-36 | an accepted insert keeps names unique, keeps ids increasing from 1 and keeps the derived columns |
| Tables.EdgesValid | server/server.js:38-45 | the constraints of `contacts`: UNIQUE pairs, each owner id a user's id, each contact name a user's name |
| Tables.AddEdge | server/server.js:242 | `INSERT OR IGNORE` adds the pair unless it is present; it is idempotent and keeps earlier rows |
| Tables.AddEdgeUnique | server/server.js:44 | the pairs stay UNIQUE |
| Tables.InsertKeepsEdgesValid | server/server.js:38-45 | a new user row keeps every contact's owner and target resolving |
| Tables.JoinRow | server/server.js:186-188 | the joined row has the contact's name, and its initials and colour are NULL exactly when no user has that name, and otherwise that user's |
| Tables.ContactRows | server/server.js:186-189 | every row is the join of an edge of the owner, every such edge has its row, and distinct edges give distinct rows (one row per edge) |
| Tables.MessagesValid | server/server.js:47-55 | the constraints of `messages`: AUTOINCREMENT ids from 1 in insertion order, below the next id |
| Tables.Filter | server/server.js:281 | only messages of the conversation are kept |
| Tables.FilterCounts | server/server.js:281 | each message of the conversation is kept as often as it is stored, and every other message is dropped |
| Tables.FilterAppend | server/server.js:281 | filtering after an append adds the new message exactly when it belongs |
| Tables.InsertOrdered | server/server.js:281 | inserting into an ordered list keeps it ordered and adds exactly that message |
| Tables.SortByTime | server/server.js:281 | the sort yields a permutation ordered by timestamp, ties broken by id |
| Tables.History | server/server.js:280-281 | the history is a permutation of the conversation's stored messages, in nondecreasing timestamp order |
| Tables.HistoryOfOtherConversation | server/server.js:297-299 | storing a message leaves the histories of other conversations unchanged |
| Tables.InsertBeforeLast | server/server.js:281 | inserting before a last element that sorts after the inserted one keeps that element last |
| Tables.SortAppendLatest | server/server.js:281 | a message after all others sorts last |
| Tables.HistoryOfLatest | server/server.js:281 | a message later (by timestamp, then id) than its whole conversation ends that conversation's history |
| Server.ChatServer.Valid | server/server.js:28-55 | the invariant of the server: the three tables' constraints, each username registered once, every open or registered socket one that was handed out |
| Server.ChatServer.constructor | server/server.js:28-55 | the server starts with empty tables, ids from 1, and no connection |
| Server.ChatServer.Connect | server/server.js:98 | a connection is a socket never seen before: not open before and in no registry entry. It is open afterwards |
| Server.ChatServer.Register | server/server.js:105-107 | on a connected socket, the username maps to that socket and every other username is unchanged |
| Server.ChatServer.Unregister | server/server.js:108-110 | the username is dropped, every other username is unchanged, and an absent username changes nothing |
| Server.ChatServer.Closing | server/server.js:132 | a closing socket is no longer OPEN |
| Server.ChatServer.Closed | server/server.js:117-126 | the close event removes the first registry entry on that socket, as the scan does |
| Server.ChatServer.Delivery | server/server.js:130-135 | at most one frame; a frame exactly when the user is registered and the socket is OPEN, and then it goes to that socket |
| Server.ChatServer.NotifyUser | server/server.js:130-135 | the outbox grows by exactly the delivery |
| Server.ChatServer.CreateUser | server/server.js:219-227 | the user insert adds the derived row, or nothing when a constraint refuses it |
| Server.ChatServer.Login | server/server.js:140-179 | a missing or blank name is refused and nothing changes. An existing row is returned unchanged. Otherwise a new row with the next id and derived fields is added and returned; the returned row is found under the trimmed name |
| Server.ChatServer.ListContacts | server/server.js:182-198 | an unknown user has no rows. A known user's rows are the joins of the user's contact edges, each edge having its row. Under the invariant the rows are distinct, so there is one row per edge, and they carry the contact's derived initials and colour |
| Server.ChatServer.InsertContact | server/server.js:241-255 | an edge between two existing users is added unless it is present |
| Server.ChatServer.EnsureUser | server/server.js:209-232 | the contact user exists afterwards, made if missing. This fails exactly when it is missing and the name is empty |
| Server.ChatServer.AddContact | server/server.js:201-273 | self-contact is refused with no change. A refused contact-user insert changes nothing. A missing owner is refused but the new contact user stays. Otherwise both directed edges are inserted if absent and the contact's profile is returned. In every case the user id counter moves by exactly the number of users created |
| Server.ChatServer.GetMessages | server/server.js:276-290 | the reply is exactly the conversation's stored messages in nondecreasing timestamp order, the same for both parties |
| Server.ChatServer.SendMessage | server/server.js:293-324 | without a timestamp nothing changes. Otherwise the message is stored with a fresh id above every earlier one, and one frame goes to the recipient exactly when the recipient is registered and open. The message joins both parties' history and no other history changes |
| Scenarios.LoginTwice | server/server.js:140-179 | a second login under the same name returns the same profile |
| Scenarios.LoginBlank | server/server.js:143-145 | a blank name is refused and creates no user |
| Scenarios.SendToConnected | server/server.js:293-324 | a message to a registered, open recipient yields exactly one frame on that socket, and it is in the recipient's history |
| Scenarios.ReconnectThenCloseOld | server/server.js:105-126 | after re-registering on a new socket, closing the old socket keeps the new registration |
| Scenarios.AddContactTwice | server/server.js:201-273 | adding a contact a second time returns the same profile and leaves users and contacts as the first call left them |

## Left out

- Express, CORS, JSON body parsing, static files, `listen`, the SIGINT handler and the `/api/health` route:
  these are framework wiring and I/O.
- Database I/O failures (the "Database error" replies and an `INSERT OR IGNORE` callback error) are not modelled,
  because they depend on the disk. The model refuses an insert only for a declared constraint: UNIQUE, or NOT NULL.
- The `created_at` columns and the `idx_conversation` index: they are clock I/O and a performance detail.
- Concurrency: each route runs to completion before the next one starts. In particular:
  - the insert conflict between two simultaneous logins of one new name is not reachable, so the
    "Error creating user" reply happens only for a refused insert;
  - the reverse contact edge runs in sequence rather than after the reply.
- WebSocket frame parsing: a malformed `register`/`unregister` frame is caught and ignored by the source; the
  model takes the parsed username.
- Body fields of the wrong JSON type (for example a numeric username, whose `trim` throws) are not modelled. Only a
  missing login name and missing optional message fields are.
- Server.ChatServer.SendMessage: a value that SQLite refuses only at run time is not modelled. Text, image and
  timestamp are strings and integers.
- JsStrings.UpperChar: upper-casing is modelled for ASCII letters only; other characters are left unchanged.
- ChatUtil.AvatarColor: a `char` is a Unicode code point, not a UTF-16 code unit. For a name whose first
  character lies outside the Basic Multilingual Plane, the model takes the code point modulo six where JavaScript
  takes the high surrogate's. So the colour can differ (U+1F600 gives palette entry 4 here and 1 in JavaScript).
- ChatUtil.Initials: for the same reason, the head of a word that starts outside the Basic Multilingual Plane
  is the whole character here, but a lone high surrogate in JavaScript.
- JsStrings.Less: the order compares code points, whereas JavaScript compares UTF-16 code units. Names with
  characters outside the Basic Multilingual Plane can sort differently (U+E000 comes before U+10000 here and after
  it in JavaScript), and so can the order of the pair in a conversation identifier.
- Tables.SortByTime: SQLite leaves the order of equal timestamps unspecified. The model breaks ties by id, a
  refinement of `ORDER BY timestamp ASC`, and the `GetMessages` contract promises only the timestamp order.
- Server.ChatServer.ListContacts: the query does not promise an order of rows. The contract states which rows
  there are and that each appears once, not their order; the model yields table order.
- The `client.send` call is modelled as appending to the outbox; the socket transport is not modelled.
- Server.ChatServer.Register: accepts any socket handed out so far, including one whose close event has already
  run. In the source a closed socket delivers no further `register` frame, so that case does not arise there; the
  model does not track which sockets have closed, and a registration on such a socket is merely never delivered to.
