/**
 * Sequences of requests against one server, stating what the routes promise
 * when they are used together.
 */
module Scenarios {
  import opened Wrappers
  import opened JsStrings
  import opened ChatUtil
  import opened Clients
  import opened Tables
  import opened Server

  /** Logging in twice under the same name gives the same profile, and the second login creates nothing. */
  method LoginTwice(s: ChatServer, name: string) returns (first: Result<User>, second: Result<User>)
    requires s.Valid()
    modifies s
    ensures s.Valid()
    ensures first.Ok? ==> second == first
    ensures first.Ok? ==> |s.users| <= |old(s.users)| + 1
  {
    first := s.Login(Some(name));
    ghost var between := s.users;
    second := s.Login(Some(name));
    assert first.Ok? ==> s.users == between;
  }

  /** A blank name is refused and changes nothing. */
  method LoginBlank(s: ChatServer) returns (r: Result<User>)
    requires s.Valid()
    modifies s
    ensures s.Valid()
    ensures r == Err(UsernameRequired) && s.users == old(s.users)
  {
    TrimEmptyIffBlank(" \t ");
    r := s.Login(Some(" \t "));
  }

  /** A message sent to a registered, open recipient reaches that socket once and joins both sides' history. */
  method SendToConnected(s: ChatServer, sender: string, recipient: string, text: string, t: int)
    returns (ch: ChannelId, r: Result<Message>)
    requires s.Valid()
    modifies s
    ensures s.Valid()
    ensures r.Ok? && r.value.text == Some(text) && r.value.sender == sender && r.value.timestamp == t
    ensures s.outbox == old(s.outbox) + [Frame(ch, NewMessage(r.value, sender))]
    ensures r.value in s.GetMessages(recipient, sender)
  {
    ch := s.Connect();
    s.Register(recipient, ch);
    assert Get(s.clients, recipient) == Some(ch) && ch in s.open;
    ghost var outbox := s.outbox;
    r := s.SendMessage(sender, recipient, Some(text), None, Some(t));
    assert s.outbox == outbox + [Frame(ch, NewMessage(r.value, sender))];
  }

  /** Re-registering on a new socket and then closing the old one keeps the new registration. */
  method ReconnectThenCloseOld(s: ChatServer, name: string) returns (previous: ChannelId, current: ChannelId)
    requires s.Valid()
    modifies s
    ensures s.Valid()
    ensures previous != current && previous !in s.open && current in s.open
    ensures Get(s.clients, name) == Some(current)
  {
    previous := s.Connect();
    s.Register(name, previous);
    current := s.Connect();
    s.Register(name, current);
    s.Closed(previous);
    SetTwice(old(s.clients), name, previous, current);
    CloseKeepsReRegistration(old(s.clients), name, previous, current);
  }

  /** Adding the same contact twice: the second call finds both users and both edges and changes nothing. */
  method AddContactTwice(s: ChatServer, username: string, contactUsername: string)
    returns (first: Result<ContactCard>, second: Result<ContactCard>, ghost users: seq<User>, ghost contacts: seq<Edge>)
    requires s.Valid()
    modifies s
    ensures s.Valid()
    ensures first.Ok? ==> second == first && s.users == users && s.contacts == contacts
  {
    first := s.AddContact(username, contactUsername);
    users, contacts := s.users, s.contacts;
    if first.Ok? {
      ghost var owner := FindUser(users, username).value;
      ghost var contact := FindUser(users, contactUsername).value;
      assert Edge(owner.id, contactUsername) in contacts && Edge(contact.id, username) in contacts;
      second := s.AddContact(username, contactUsername);
    } else {
      second := s.AddContact(username, contactUsername);
    }
  }
}
