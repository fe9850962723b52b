/**
 * The three SQLite tables of the chat server held as values: their rows, the
 * constraints declared on them, and the queries the routes run.
 */
module Tables {
  import opened Wrappers
  import opened ChatUtil

  /** A row of `users`. */
  datatype User = User(id: nat, username: string, initials: string, color: string)

  /** The columns add-contact selects for its reply: the profile without the id. */
  datatype ContactCard = ContactCard(username: string, initials: string, color: string)

  /** A row of `contacts`: the owner's user id and the contact's username. */
  datatype Edge = Edge(userId: nat, contactUsername: string)

  /** A row of the contact-list query; the user columns are NULL when the LEFT JOIN finds no user. */
  datatype ContactRow = ContactRow(contactUsername: string, initials: Option<string>, color: Option<string>)

  /** A row of `messages`; text and image are nullable, the timestamp is supplied by the client. */
  datatype Message = Message(
    id: nat,
    conversationId: string,
    sender: string,
    text: Option<string>,
    image: Option<string>,
    timestamp: int)

  // ---------------------------------------------------------------- users

  /** `SELECT * FROM users WHERE username = ?`. */
  function FindUser(users: seq<User>, username: string): (r: Option<User>)
    ensures r.Some? ==> r.value in users && r.value.username == username
    ensures r.None? ==> forall i :: 0 <= i < |users| ==> users[i].username != username
  {
    if users == [] then None
    else if users[0].username == username then Some(users[0])
    else FindUser(users[1..], username)
  }

  predicate HasId(users: seq<User>, id: nat) {
    exists k :: 0 <= k < |users| && users[k].id == id
  }

  /**
   * The constraints of `users`: usernames are UNIQUE, ids are AUTOINCREMENT
   * (increasing in insertion order, from 1, below the next id), and initials
   * and colour are the ones derived from the username when the row was made.
   */
  predicate UsersValid(users: seq<User>, nextId: nat) {
    && (forall i, j :: 0 <= i < j < |users| ==> users[i].username != users[j].username)
    && (forall i, j :: 0 <= i < j < |users| ==> users[i].id < users[j].id)
    && (forall i :: 0 <= i < |users| ==> 1 <= users[i].id < nextId)
    && (forall i :: 0 <= i < |users| ==>
          users[i].initials == Initials(users[i].username) &&
          AvatarColor(users[i].username) == Some(users[i].color))
  }

  /**
   * `INSERT INTO users (username, initials, color)` with the derived values:
   * the row it adds, or none when a constraint refuses it (a username already
   * taken, or a colour that is `undefined` and so NULL).
   */
  function NewUserRow(users: seq<User>, nextId: nat, username: string): (r: Option<User>)
    ensures r.Some? <==> FindUser(users, username).None? && username != []
    ensures r.Some? ==> r.value.id == nextId && r.value.username == username
    ensures r.Some? ==> r.value.initials == Initials(username) && Some(r.value.color) == AvatarColor(username)
  {
    if FindUser(users, username).Some? then None
    else match AvatarColor(username)
      case None => None
      case Some(color) => Some(User(nextId, username, Initials(username), color))
  }

  /** After an insert the lookup finds the new row under its name and the old rows under theirs. */
  lemma FindUserAfterInsert(users: seq<User>, u: User, username: string)
    requires FindUser(users, u.username).None?
    ensures FindUser(users + [u], username) == if username == u.username then Some(u) else FindUser(users, username)
  {
    if users != [] {
      assert (users + [u])[1..] == users[1..] + [u];
      FindUserAfterInsert(users[1..], u, username);
    }
  }

  /** A row the lookup finds carries an id of the table. */
  lemma FindUserHasId(users: seq<User>, username: string)
    requires FindUser(users, username).Some?
    ensures HasId(users, FindUser(users, username).value.id)
  {
    var u := FindUser(users, username).value;
    var k :| 0 <= k < |users| && users[k] == u;
  }

  /** With unique usernames the lookup by a row's name finds that row. */
  lemma {:induction false} FindUserAt(users: seq<User>, k: nat)
    requires k < |users|
    requires forall i, j :: 0 <= i < j < |users| ==> users[i].username != users[j].username
    ensures FindUser(users, users[k].username) == Some(users[k])
  {
    if k > 0 {
      FindUserAt(users[1..], k - 1);
    }
  }

  /** An accepted insert keeps the constraints of `users` with the counter moved on. */
  lemma InsertKeepsUsersValid(users: seq<User>, nextId: nat, username: string)
    requires UsersValid(users, nextId) && nextId >= 1
    requires NewUserRow(users, nextId, username).Some?
    ensures UsersValid(users + [NewUserRow(users, nextId, username).value], nextId + 1)
  {
  }

  // ---------------------------------------------------------------- contacts

  /**
   * The constraints of `contacts`: the pair is UNIQUE, the owner id is a user's
   * id, and the contact name is a user's name.
   */
  predicate EdgesValid(edges: seq<Edge>, users: seq<User>) {
    && (forall i, j :: 0 <= i < j < |edges| ==> edges[i] != edges[j])
    && (forall i :: 0 <= i < |edges| ==> HasId(users, edges[i].userId))
    && (forall i :: 0 <= i < |edges| ==> FindUser(users, edges[i].contactUsername).Some?)
  }

  /** `INSERT OR IGNORE INTO contacts`: the pair goes in unless it is there already. */
  function AddEdge(edges: seq<Edge>, e: Edge): (r: seq<Edge>)
    ensures forall x :: x in r <==> x in edges || x == e
    ensures e in edges ==> r == edges
    ensures |r| <= |edges| + 1 && edges <= r
  {
    if e in edges then edges else edges + [e]
  }

  /** Inserting a pair keeps the pairs unique. */
  lemma AddEdgeUnique(edges: seq<Edge>, e: Edge)
    requires forall i, j :: 0 <= i < j < |edges| ==> edges[i] != edges[j]
    ensures var r := AddEdge(edges, e); forall i, j :: 0 <= i < j < |r| ==> r[i] != r[j]
  {
  }

  /** A new user row leaves every reference of the contacts table resolving. */
  lemma InsertKeepsEdgesValid(edges: seq<Edge>, users: seq<User>, u: User)
    requires EdgesValid(edges, users)
    requires FindUser(users, u.username).None?
    ensures EdgesValid(edges, users + [u])
  {
    forall i | 0 <= i < |edges| ensures HasId(users + [u], edges[i].userId) {
      var k :| 0 <= k < |users| && users[k].id == edges[i].userId;
      assert (users + [u])[k] == users[k];
    }
    forall i | 0 <= i < |edges| ensures FindUser(users + [u], edges[i].contactUsername).Some? {
      FindUserAfterInsert(users, u, edges[i].contactUsername);
    }
  }

  /** One row of `contacts c LEFT JOIN users u ON c.contact_username = u.username`. */
  function JoinRow(users: seq<User>, e: Edge): (row: ContactRow)
    ensures row.contactUsername == e.contactUsername
    ensures row.initials.Some? <==> FindUser(users, e.contactUsername).Some?
    ensures row.color.Some? <==> FindUser(users, e.contactUsername).Some?
    ensures row.initials.Some? ==>
      row.initials.value == FindUser(users, e.contactUsername).value.initials &&
      row.color.value == FindUser(users, e.contactUsername).value.color
  {
    match FindUser(users, e.contactUsername)
    case None => ContactRow(e.contactUsername, None, None)
    case Some(u) => ContactRow(e.contactUsername, Some(u.initials), Some(u.color))
  }

  /** The joined rows of the edges whose owner is `ownerId`, in table order. */
  function ContactRows(users: seq<User>, edges: seq<Edge>, ownerId: nat): (rows: seq<ContactRow>)
    ensures |rows| <= |edges|
    ensures forall row :: row in rows ==>
      exists e :: e in edges && e.userId == ownerId && row == JoinRow(users, e)
    ensures forall e :: e in edges && e.userId == ownerId ==> JoinRow(users, e) in rows
    ensures (forall i, j :: 0 <= i < j < |edges| ==> edges[i] != edges[j]) ==>
      forall i, j :: 0 <= i < j < |rows| ==> rows[i] != rows[j]
  {
    if edges == [] then []
    else
      var rest := ContactRows(users, edges[1..], ownerId);
      assert forall e :: e in edges ==> e == edges[0] || e in edges[1..];
      if edges[0].userId == ownerId then
        var row := JoinRow(users, edges[0]);
        assert (forall i, j :: 0 <= i < j < |edges| ==> edges[i] != edges[j]) ==> row !in rest by {
          if forall i, j :: 0 <= i < j < |edges| ==> edges[i] != edges[j] {
            assert edges[0] !in edges[1..];
            forall x | x in rest ensures x != row {
              var e :| e in edges[1..] && e.userId == ownerId && x == JoinRow(users, e);
            }
          }
        }
        [row] + rest
      else rest
  }

  // ---------------------------------------------------------------- messages

  /** The constraints of `messages`: AUTOINCREMENT ids, increasing in insertion order, from 1, below the next id. */
  predicate MessagesValid(messages: seq<Message>, nextId: nat) {
    && (forall i, j :: 0 <= i < j < |messages| ==> messages[i].id < messages[j].id)
    && (forall i :: 0 <= i < |messages| ==> 1 <= messages[i].id < nextId)
  }

  /** `WHERE conversation_id = ?`: the rows of one conversation, in table order. */
  function Filter(messages: seq<Message>, conversationId: string): (r: seq<Message>)
    ensures forall x :: x in r ==> x in messages && x.conversationId == conversationId
  {
    if messages == [] then []
    else
      var rest := Filter(messages[1..], conversationId);
      if messages[0].conversationId == conversationId then [messages[0]] + rest else rest
  }

  /** The filter keeps each message of the conversation as often as it is stored, and nothing else. */
  lemma {:induction false} FilterCounts(messages: seq<Message>, conversationId: string)
    ensures forall x ::
      multiset(Filter(messages, conversationId))[x] == (if x.conversationId == conversationId then multiset(messages)[x] else 0)
  {
    if messages != [] {
      FilterCounts(messages[1..], conversationId);
      assert messages == [messages[0]] + messages[1..];
    }
  }

  lemma {:induction false} FilterAppend(messages: seq<Message>, m: Message, conversationId: string)
    ensures Filter(messages + [m], conversationId) ==
      Filter(messages, conversationId) + (if m.conversationId == conversationId then [m] else [])
  {
    if messages == [] {
      assert Filter([m], conversationId) == (if m.conversationId == conversationId then [m] else []) + Filter([], conversationId);
    } else {
      var tail := (messages + [m])[1..];
      assert tail == messages[1..] + [m];
      FilterAppend(messages[1..], m, conversationId);
    }
  }

  /** The order of the history: by timestamp, and by id among equal timestamps. */
  predicate Before(a: Message, b: Message) {
    a.timestamp < b.timestamp || (a.timestamp == b.timestamp && a.id <= b.id)
  }

  predicate Ordered(s: seq<Message>) {
    forall i, j :: 0 <= i < j < |s| ==> Before(s[i], s[j])
  }

  /** Places `m` in front of the first message it comes before. */
  function InsertOrdered(m: Message, s: seq<Message>): (r: seq<Message>)
    requires Ordered(s)
    ensures Ordered(r)
    ensures forall x :: x in r ==> x == m || x in s
    ensures multiset(r) == multiset(s) + multiset{m}
  {
    if s == [] then [m]
    else if Before(m, s[0]) then [m] + s
    else
      var rest := InsertOrdered(m, s[1..]);
      assert Before(s[0], m);
      assert forall x :: x in rest ==> Before(s[0], x);
      assert s == [s[0]] + s[1..];
      [s[0]] + rest
  }

  /** `ORDER BY timestamp ASC`, as an insertion sort by (timestamp, id). */
  function SortByTime(s: seq<Message>): (r: seq<Message>)
    ensures Ordered(r)
    ensures multiset(r) == multiset(s)
  {
    if s == [] then []
    else
      assert s == [s[0]] + s[1..];
      InsertOrdered(s[0], SortByTime(s[1..]))
  }

  /**
   * `SELECT * FROM messages WHERE conversation_id = ? ORDER BY timestamp ASC`:
   * every stored message of the conversation, each as often as it is stored,
   * none of another, in nondecreasing timestamp order.
   */
  function History(messages: seq<Message>, conversationId: string): (r: seq<Message>)
    ensures multiset(r) == multiset(Filter(messages, conversationId))
    ensures forall m :: m in r <==> m in messages && m.conversationId == conversationId
    ensures forall i, j :: 0 <= i < j < |r| ==> r[i].timestamp <= r[j].timestamp
  {
    var r := SortByTime(Filter(messages, conversationId));
    FilterCounts(messages, conversationId);
    assert forall m :: m in r <==> m in multiset(r);
    assert forall m :: m in messages <==> m in multiset(messages);
    r
  }

  /** A message of another conversation leaves a history as it was. */
  lemma {:induction false} HistoryOfOtherConversation(messages: seq<Message>, m: Message, conversationId: string)
    requires m.conversationId != conversationId
    ensures History(messages + [m], conversationId) == History(messages, conversationId)
  {
    FilterAppend(messages, m, conversationId);
    var f := Filter(messages, conversationId);
    assert f + [] == f;
  }

  /** The front part of an ordered list followed by one more message is ordered, and so is its tail with that message. */
  lemma OrderedParts(t: seq<Message>, m: Message)
    requires Ordered(t + [m]) && t != []
    ensures Ordered(t) && Ordered(t[1..] + [m])
  {
    var w := t + [m];
    assert forall i :: 0 <= i < |t| ==> t[i] == w[i];
    assert forall i :: 0 <= i < |t| ==> (t[1..] + [m])[i] == w[i + 1];
  }

  lemma {:induction false} InsertBeforeLast(x: Message, t: seq<Message>, m: Message)
    requires Ordered(t + [m]) && Before(x, m)
    ensures Ordered(t)
    ensures InsertOrdered(x, t + [m]) == InsertOrdered(x, t) + [m]
  {
    if t != [] {
      OrderedParts(t, m);
      if !Before(x, t[0]) {
        assert (t + [m])[1..] == t[1..] + [m];
        InsertBeforeLast(x, t[1..], m);
      }
    }
  }

  lemma {:induction false} SortAppendLatest(s: seq<Message>, m: Message)
    requires forall x :: x in s ==> Before(x, m)
    ensures SortByTime(s + [m]) == SortByTime(s) + [m]
  {
    if s != [] {
      assert (s + [m])[1..] == s[1..] + [m];
      SortAppendLatest(s[1..], m);
      var t := SortByTime(s[1..]);
      assert forall x :: x in t ==> x in multiset(t);
      assert forall x :: x in s[1..] <==> x in multiset(s[1..]);
      assert forall x :: x in t ==> Before(x, m);
      assert Ordered(t + [m]);
      InsertBeforeLast(s[0], t, m);
    }
  }

  /**
   * A message whose (timestamp, id) comes after every message of its
   * conversation is the last one of that conversation's history.
   */
  lemma {:induction false} HistoryOfLatest(messages: seq<Message>, m: Message)
    requires forall x :: x in messages && x.conversationId == m.conversationId ==> Before(x, m)
    ensures History(messages + [m], m.conversationId) == History(messages, m.conversationId) + [m]
  {
    FilterAppend(messages, m, m.conversationId);
    SortAppendLatest(Filter(messages, m.conversationId), m);
  }
}
