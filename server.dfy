/**
 * The chat server as one object: the three tables, the registry of live
 * connections, the state of each socket, and the frames pushed to sockets.
 * Each route and each socket event is a method.
 */
module Server {
  import opened Wrappers
  import opened JsStrings
  import opened ChatUtil
  import opened Clients
  import opened Tables

  /** The failures a route reports, one per error reply of the source. */
  datatype Error =
    | UsernameRequired          // login: 400, missing or blank username
    | CreateUserFailed          // login: 500, the user insert was refused
    | SelfContact               // add contact: 400, a user adding themselves
    | CreateContactUserFailed   // add contact: 500, the contact user insert was refused
    | UserNotFound              // add contact: 500, the owner has no user row
    | SendFailed                // send: 500, the message insert was refused

  datatype Result<T> = Ok(value: T) | Err(error: Error)

  /** The one frame the server pushes: `{type: 'new_message', message, from}`. */
  datatype Event = NewMessage(message: Message, from: string)

  /** A frame written to a socket. */
  datatype Frame = Frame(channel: ChannelId, event: Event)

  class ChatServer {
    var users: seq<User>
    var nextUserId: nat
    var contacts: seq<Edge>
    var messages: seq<Message>
    var nextMessageId: nat
    /** `clients`: username to socket, in insertion order. */
    var clients: seq<Entry>
    /** The sockets whose `readyState` is OPEN. */
    var open: set<ChannelId>
    var nextChannel: ChannelId
    /** Every frame sent so far, in order. */
    var outbox: seq<Frame>

    /**
     * The declared constraints of the tables, a registry holding each username
     * once, and every socket, open or registered, one that was handed out.
     */
    ghost predicate Valid()
      reads this
    {
      && nextUserId >= 1 && UsersValid(users, nextUserId)
      && EdgesValid(contacts, users)
      && nextMessageId >= 1 && MessagesValid(messages, nextMessageId)
      && UniqueKeys(clients)
      && (forall ch :: ch in open ==> ch < nextChannel)
      && (forall e :: e in clients ==> e.channel < nextChannel)
    }

    /** An empty database and no connection. */
    constructor ()
      ensures Valid()
      ensures users == [] && contacts == [] && messages == []
      ensures clients == [] && open == {} && outbox == []
      ensures nextUserId == 1 && nextMessageId == 1 && nextChannel == 0
    {
      users, nextUserId := [], 1;
      contacts := [];
      messages, nextMessageId := [], 1;
      clients, open, nextChannel := [], {}, 0;
      outbox := [];
    }

    // ------------------------------------------------------------ sockets

    /** A new WebSocket connection: a socket never seen before, open. */
    method Connect() returns (channel: ChannelId)
      requires Valid()
      modifies this`open, this`nextChannel
      ensures Valid()
      ensures channel == old(nextChannel) && channel !in old(open)
      ensures forall e :: e in old(clients) ==> e.channel != channel
      ensures open == old(open) + {channel} && nextChannel == old(nextChannel) + 1
    {
      channel := nextChannel;
      open := open + {channel};
      nextChannel := nextChannel + 1;
    }

    /**
     * A `register` frame, arriving on a connected socket: the username now maps
     * to this socket, whatever it mapped to before.
     */
    method Register(username: string, channel: ChannelId)
      requires Valid() && channel < nextChannel
      modifies this`clients
      ensures Valid()
      ensures clients == Set(old(clients), username, channel)
      ensures Get(clients, username) == Some(channel)
      ensures forall other :: other != username ==> Get(clients, other) == Get(old(clients), other)
    {
      clients := Set(clients, username, channel);
    }

    /** An `unregister` frame: the username is dropped, and nothing happens if it was absent. */
    method Unregister(username: string)
      requires Valid()
      modifies this`clients
      ensures Valid()
      ensures clients == Delete(old(clients), username)
      ensures Get(clients, username) == None
      ensures forall other :: other != username ==> Get(clients, other) == Get(old(clients), other)
      ensures Get(old(clients), username).None? ==> clients == old(clients)
    {
      clients := Delete(clients, username);
    }

    /** The socket starts closing: its `readyState` is no longer OPEN, the close event has not come yet. */
    method Closing(channel: ChannelId)
      requires Valid()
      modifies this`open
      ensures Valid()
      ensures open == old(open) - {channel}
    {
      open := open - {channel};
    }

    /**
     * The socket's `close` event: the first registry entry on that socket is
     * deleted and the scan stops.
     */
    method Closed(channel: ChannelId)
      requires Valid()
      modifies this`open, this`clients
      ensures Valid()
      ensures open == old(open) - {channel}
      ensures clients == AfterClose(old(clients), channel)
    {
      open := open - {channel};
      var found := FindByChannel(clients, channel);
      match found
      case Some(i) =>
        AfterCloseAt(clients, channel, i);
        IndexOfAt(clients, i);
        clients := Delete(clients, clients[i].username);
      case None =>
        AfterCloseNone(clients, channel);
    }

    /**
     * What `notifyUser` sends: one frame to the user's socket when the user is
     * registered and the socket is open, nothing otherwise.
     */
    function Delivery(username: string, event: Event): (frames: seq<Frame>)
      reads this
      ensures |frames| <= 1
      ensures frames != [] <==> Get(clients, username).Some? && Get(clients, username).value in open
      ensures forall f :: f in frames ==> f == Frame(Get(clients, username).value, event)
    {
      match Get(clients, username)
      case None => []
      case Some(channel) => if channel in open then [Frame(channel, event)] else []
    }

    /** `notifyUser`. */
    method NotifyUser(username: string, event: Event)
      modifies this`outbox
      ensures outbox == old(outbox) + Delivery(username, event)
    {
      var client := Get(clients, username);
      if client.Some? && client.value in open {
        outbox := outbox + [Frame(client.value, event)];
      }
    }

    // ------------------------------------------------------------ users

    /** The user insert of login and add-contact, with the initials and colour derived from the name. */
    method CreateUser(username: string) returns (created: Option<User>)
      requires Valid()
      modifies this`users, this`nextUserId
      ensures Valid()
      ensures created == NewUserRow(old(users), old(nextUserId), username)
      ensures users == old(users) + (if created.Some? then [created.value] else [])
      ensures nextUserId == old(nextUserId) + (if created.Some? then 1 else 0)
    {
      created := NewUserRow(users, nextUserId, username);
      if created.Some? {
        InsertKeepsUsersValid(users, nextUserId, username);
        InsertKeepsEdgesValid(contacts, users, created.value);
        users := users + [created.value];
        nextUserId := nextUserId + 1;
      }
    }

    /**
     * `POST /api/auth/login`: a missing or blank name is refused; otherwise
     * the trimmed name's row is returned, made first if there is none.
     */
    method Login(username: Option<string>) returns (r: Result<User>)
      requires Valid()
      modifies this`users, this`nextUserId
      ensures Valid()
      ensures username.None? || Trim(username.value) == [] ==>
        r == Err(UsernameRequired) && users == old(users) && nextUserId == old(nextUserId)
      ensures username.Some? && Trim(username.value) != [] ==>
        var name := Trim(username.value);
        match FindUser(old(users), name)
        case Some(u) =>
          r == Ok(u) && users == old(users) && nextUserId == old(nextUserId)
        case None =>
          && r == Ok(User(old(nextUserId), name, Initials(name), AvatarColor(name).value))
          && users == old(users) + [r.value]
          && nextUserId == old(nextUserId) + 1
      ensures r.Ok? ==> r.value.username == Trim(username.value) && FindUser(users, r.value.username) == Some(r.value)
    {
      if username.None? || Trim(username.value) == [] {
        return Err(UsernameRequired);
      }
      var name := Trim(username.value);
      var existing := FindUser(users, name);
      if existing.Some? {
        return Ok(existing.value);
      }
      var created := CreateUser(name);
      match created
      case None =>
        r := Err(CreateUserFailed);
      case Some(u) =>
        FindUserAfterInsert(old(users), u, name);
        r := Ok(u);
    }

    // ------------------------------------------------------------ contacts

    /**
     * `GET /api/contacts/:username`: one row per contact edge of the user, with
     * the contact's initials and colour when the contact has a user row; no
     * rows for an unknown user.
     */
    function ListContacts(username: string): (rows: seq<ContactRow>)
      reads this
      ensures FindUser(users, username).None? ==> rows == []
      ensures FindUser(users, username).Some? ==>
        var owner := FindUser(users, username).value;
        && (forall row :: row in rows ==>
              Edge(owner.id, row.contactUsername) in contacts && row == JoinRow(users, Edge(owner.id, row.contactUsername)))
        && (forall c :: Edge(owner.id, c) in contacts ==> JoinRow(users, Edge(owner.id, c)) in rows)
      ensures Valid() ==> forall row :: row in rows ==>
        row.initials == Some(Initials(row.contactUsername)) && row.color == AvatarColor(row.contactUsername)
      ensures Valid() ==> forall i, j :: 0 <= i < j < |rows| ==> rows[i] != rows[j]
    {
      match FindUser(users, username)
      case None => []
      case Some(owner) =>
        var rows := ContactRows(users, contacts, owner.id);
        assert Valid() ==> forall row :: row in rows ==>
          row.initials == Some(Initials(row.contactUsername)) && row.color == AvatarColor(row.contactUsername) by {
          if Valid() {
            forall row | row in rows
              ensures row.initials == Some(Initials(row.contactUsername)) && row.color == AvatarColor(row.contactUsername)
            {
              var e :| e in contacts && e.userId == owner.id && row == JoinRow(users, e);
              var k :| 0 <= k < |contacts| && contacts[k] == e;
              var u := FindUser(users, e.contactUsername).value;
              var j :| 0 <= j < |users| && users[j] == u;
            }
          }
        }
        rows
    }

    /** `INSERT OR IGNORE INTO contacts (user_id, contact_username)` for two existing users. */
    method InsertContact(ownerId: nat, contactUsername: string)
      requires Valid()
      requires HasId(users, ownerId) && FindUser(users, contactUsername).Some?
      modifies this`contacts
      ensures Valid()
      ensures contacts == AddEdge(old(contacts), Edge(ownerId, contactUsername))
    {
      AddEdgeUnique(contacts, Edge(ownerId, contactUsername));
      contacts := AddEdge(contacts, Edge(ownerId, contactUsername));
    }

    /** `ensureContactUser`: the user row of the name, made first if missing; false when the insert is refused. */
    method EnsureUser(username: string) returns (ok: bool)
      requires Valid()
      modifies this`users, this`nextUserId
      ensures Valid()
      ensures ok <==> FindUser(old(users), username).Some? || username != []
      ensures users == old(users) + (if FindUser(old(users), username).Some? || !ok then [] else
        [User(old(nextUserId), username, Initials(username), AvatarColor(username).value)])
      ensures nextUserId == old(nextUserId) + |users| - |old(users)|
      ensures ok ==> FindUser(users, username).Some?
    {
      if FindUser(users, username).Some? {
        return true;
      }
      var created := CreateUser(username);
      ok := created.Some?;
      if ok {
        FindUserAfterInsert(old(users), created.value, username);
      }
    }

    /**
     * `POST /api/contacts`: refuses a user adding themselves; makes the contact
     * user if missing; refuses an owner without a user row (the contact user
     * stays); inserts the edge and, best-effort, the reverse edge, each only
     * if absent; replies with the contact's profile.
     */
    method AddContact(username: string, contactUsername: string) returns (r: Result<ContactCard>)
      requires Valid()
      modifies this`users, this`nextUserId, this`contacts
      ensures Valid()
      ensures nextUserId == old(nextUserId) + |users| - |old(users)|
      ensures username == contactUsername ==>
        r == Err(SelfContact) && users == old(users) && nextUserId == old(nextUserId) && contacts == old(contacts)
      ensures username != contactUsername && FindUser(old(users), contactUsername).None? && contactUsername == [] ==>
        r == Err(CreateContactUserFailed) && users == old(users) && nextUserId == old(nextUserId) && contacts == old(contacts)
      ensures username != contactUsername && (FindUser(old(users), contactUsername).Some? || contactUsername != []) ==>
        && users == old(users) + (if FindUser(old(users), contactUsername).Some? then [] else
             [User(old(nextUserId), contactUsername, Initials(contactUsername), AvatarColor(contactUsername).value)])
        && FindUser(users, contactUsername).Some?
        && (FindUser(users, username).None? ==> r == Err(UserNotFound) && contacts == old(contacts))
        && (FindUser(users, username).Some? ==>
              var owner := FindUser(users, username).value;
              var contact := FindUser(users, contactUsername).value;
              && r == Ok(ContactCard(contact.username, contact.initials, contact.color))
              && contacts == AddEdge(AddEdge(old(contacts), Edge(owner.id, contactUsername)), Edge(contact.id, username)))
    {
      if username == contactUsername {
        return Err(SelfContact);
      }
      var ok := EnsureUser(contactUsername);
      if !ok {
        return Err(CreateContactUserFailed);
      }
      var owner := FindUser(users, username);
      if owner.None? {
        return Err(UserNotFound);
      }
      FindUserHasId(users, username);
      InsertContact(owner.value.id, contactUsername);
      // The reverse edge is best-effort: the reply never waits for it or reports its failure.
      var reverseOwner := FindUser(users, contactUsername);
      if reverseOwner.Some? {
        FindUserHasId(users, contactUsername);
        InsertContact(reverseOwner.value.id, username);
      }
      var contact := FindUser(users, contactUsername).value;
      r := Ok(ContactCard(contact.username, contact.initials, contact.color));
    }

    // ------------------------------------------------------------ messages

    /**
     * `GET /api/messages/:username/:contactUsername`: the conversation's
     * messages in nondecreasing timestamp order, the same for both parties.
     */
    function GetMessages(username: string, contactUsername: string): (r: seq<Message>)
      reads this
      ensures forall m :: m in r <==> m in messages && m.conversationId == ConversationId(username, contactUsername)
      ensures forall i, j :: 0 <= i < j < |r| ==> r[i].timestamp <= r[j].timestamp
      ensures r == History(messages, ConversationId(contactUsername, username))
    {
      ConversationIdSymmetric(username, contactUsername);
      History(messages, ConversationId(username, contactUsername))
    }

    /**
     * `POST /api/messages`: stores the message under the pair's conversation
     * with a fresh id, pushes it to the recipient if connected, and returns
     * it; without a timestamp the NOT NULL column refuses the insert.
     */
    method SendMessage(sender: string, recipient: string, text: Option<string>, image: Option<string>, timestamp: Option<int>)
      returns (r: Result<Message>)
      requires Valid()
      modifies this`messages, this`nextMessageId, this`outbox
      ensures Valid()
      ensures timestamp.None? ==>
        r == Err(SendFailed) && messages == old(messages) && nextMessageId == old(nextMessageId) && outbox == old(outbox)
      ensures timestamp.Some? ==>
        && r == Ok(Message(old(nextMessageId), ConversationId(sender, recipient), sender, text, image, timestamp.value))
        && r.value.conversationId == ConversationId(recipient, sender)
        && messages == old(messages) + [r.value]
        && nextMessageId == old(nextMessageId) + 1
        && (forall m :: m in old(messages) ==> m.id < r.value.id)
        && outbox == old(outbox) + Delivery(recipient, NewMessage(r.value, sender))
        && r.value in GetMessages(sender, recipient) && r.value in GetMessages(recipient, sender)
        && (forall a, b :: ConversationId(a, b) != r.value.conversationId ==> GetMessages(a, b) == old(GetMessages(a, b)))
    {
      if timestamp.None? {
        return Err(SendFailed);
      }
      var conversationId := ConversationId(sender, recipient);
      var message := Message(nextMessageId, conversationId, sender, text, image, timestamp.value);
      ghost var before := messages;
      messages := messages + [message];
      nextMessageId := nextMessageId + 1;
      ConversationIdSymmetric(sender, recipient);
      forall a, b | ConversationId(a, b) != conversationId
        ensures History(messages, ConversationId(a, b)) == History(before, ConversationId(a, b))
      {
        HistoryOfOtherConversation(before, message, ConversationId(a, b));
      }
      NotifyUser(recipient, NewMessage(message, sender));
      r := Ok(message);
    }
  }
}
