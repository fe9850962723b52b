/**
 * The registry of live connections: a JavaScript `Map` from username to
 * socket, kept as the sequence of its entries in insertion order.
 */
module Clients {
  import opened Wrappers

  /** A socket, known by identity only. */
  type ChannelId = nat

  datatype Entry = Entry(username: string, channel: ChannelId)

  /** A `Map` holds each key once. */
  predicate UniqueKeys(entries: seq<Entry>) {
    forall i, j :: 0 <= i < j < |entries| ==> entries[i].username != entries[j].username
  }

  /** The position of the entry for `username`, if there is one. */
  function IndexOf(entries: seq<Entry>, username: string): (r: Option<nat>)
    ensures r.Some? ==> r.value < |entries| && entries[r.value].username == username
    ensures r.Some? ==> forall j :: 0 <= j < r.value ==> entries[j].username != username
    ensures r.None? ==> forall j :: 0 <= j < |entries| ==> entries[j].username != username
  {
    if entries == [] then None
    else if entries[0].username == username then Some(0)
    else match IndexOf(entries[1..], username)
      case None => None
      case Some(i) => Some(i + 1)
  }

  /** In a map with unique keys, the entry at `k` is the one `IndexOf` finds. */
  lemma IndexOfAt(entries: seq<Entry>, k: nat)
    requires UniqueKeys(entries) && k < |entries|
    ensures IndexOf(entries, entries[k].username) == Some(k)
  {
  }

  /** Appending a new key moves no other key. */
  lemma AppendKeepsOthers(entries: seq<Entry>, e: Entry)
    requires UniqueKeys(entries + [e])
    ensures forall other :: other != e.username ==> IndexOf(entries + [e], other) == IndexOf(entries, other)
  {
    var r := entries + [e];
    forall other | other != e.username ensures IndexOf(r, other) == IndexOf(entries, other) {
      if IndexOf(entries, other).Some? {
        IndexOfAt(r, IndexOf(entries, other).value);
      }
    }
  }

  /** Replacing the socket of entry `i` moves no other key. */
  lemma ReplaceKeepsOthers(entries: seq<Entry>, i: nat, channel: ChannelId)
    requires UniqueKeys(entries) && i < |entries|
    ensures var r := entries[i := Entry(entries[i].username, channel)];
      UniqueKeys(r) &&
      forall other :: other != entries[i].username ==> IndexOf(r, other) == IndexOf(entries, other)
  {
    var r := entries[i := Entry(entries[i].username, channel)];
    forall other | other != entries[i].username ensures IndexOf(r, other) == IndexOf(entries, other) {
      if IndexOf(entries, other).Some? {
        IndexOfAt(r, IndexOf(entries, other).value);
      }
    }
  }

  /**
   * Where the key at position `at` sits once entry `i` is removed: an earlier
   * key keeps its place, a later one moves up by one, and the removed one is gone.
   */
  function Shifted(at: Option<nat>, i: nat): Option<nat> {
    match at
    case None => None
    case Some(k) => if k < i then Some(k) else if k > i then Some(k - 1) else None
  }

  /** Removing entry `i` keeps every other key, one place earlier if it came after. */
  lemma RemoveKeepsOthers(entries: seq<Entry>, i: nat)
    requires UniqueKeys(entries) && i < |entries|
    ensures var r := entries[..i] + entries[i + 1..];
      UniqueKeys(r) && IndexOf(r, entries[i].username) == None &&
      forall other :: other != entries[i].username ==> IndexOf(r, other) == Shifted(IndexOf(entries, other), i)
  {
    var r := entries[..i] + entries[i + 1..];
    assert forall j :: 0 <= j < |r| ==> r[j] == entries[if j < i then j else j + 1];
    assert UniqueKeys(r);
    forall other | other != entries[i].username
      ensures IndexOf(r, other) == Shifted(IndexOf(entries, other), i)
    {
      if IndexOf(entries, other).Some? {
        var k := IndexOf(entries, other).value;
        assert k != i;
        var k' := if k < i then k else k - 1;
        assert r[k'] == entries[k];
        IndexOfAt(r, k');
      }
    }
  }

  /** `clients.get(username)`. */
  function Get(entries: seq<Entry>, username: string): (r: Option<ChannelId>)
    ensures r.Some? <==> exists k :: 0 <= k < |entries| && entries[k].username == username
    ensures r.Some? ==> exists k :: 0 <= k < |entries| && entries[k] == Entry(username, r.value)
  {
    match IndexOf(entries, username)
    case None => None
    case Some(i) => Some(entries[i].channel)
  }

  /** `clients.set(username, channel)`: an existing key keeps its place, a new one goes last. */
  function Set(entries: seq<Entry>, username: string, channel: ChannelId): (r: seq<Entry>)
    requires UniqueKeys(entries)
    ensures UniqueKeys(r)
    ensures Get(r, username) == Some(channel)
    ensures forall other :: other != username ==> Get(r, other) == Get(entries, other)
    ensures Get(entries, username).Some? ==> |r| == |entries|
    ensures Get(entries, username).None? ==> r == entries + [Entry(username, channel)]
    ensures forall u :: IndexOf(entries, u).Some? ==> IndexOf(r, u) == IndexOf(entries, u)
    ensures forall e :: e in r ==> e in entries || e == Entry(username, channel)
  {
    match IndexOf(entries, username)
    case None =>
      var r := entries + [Entry(username, channel)];
      IndexOfAt(r, |entries|);
      AppendKeepsOthers(entries, Entry(username, channel));
      r
    case Some(i) =>
      var r := entries[i := Entry(username, channel)];
      IndexOfAt(r, i);
      ReplaceKeepsOthers(entries, i, channel);
      r
  }

  /** `clients.delete(username)`: drops that entry, keeps the others in order. */
  function Delete(entries: seq<Entry>, username: string): (r: seq<Entry>)
    requires UniqueKeys(entries)
    ensures UniqueKeys(r)
    ensures Get(r, username) == None
    ensures forall other :: other != username ==> Get(r, other) == Get(entries, other)
    ensures Get(entries, username).None? ==> r == entries
    ensures Get(entries, username).Some? ==> |r| + 1 == |entries|
    ensures forall u :: u != username ==> IndexOf(r, u) == match IndexOf(entries, username)
      case None => IndexOf(entries, u)
      case Some(i) => Shifted(IndexOf(entries, u), i)
    ensures forall e :: e in r ==> e in entries
  {
    match IndexOf(entries, username)
    case None => entries
    case Some(i) =>
      RemoveKeepsOthers(entries, i);
      entries[..i] + entries[i + 1..]
  }

  /** Setting a key twice is setting it to the second value. */
  lemma SetTwice(entries: seq<Entry>, username: string, first: ChannelId, second: ChannelId)
    requires UniqueKeys(entries)
    ensures Set(Set(entries, username, first), username, second) == Set(entries, username, second)
  {
    var once := Set(entries, username, first);
    match IndexOf(entries, username)
    case None =>
      IndexOfAt(once, |entries|);
      assert once[|entries| := Entry(username, second)] == entries + [Entry(username, second)];
    case Some(i) =>
      IndexOfAt(once, i);
  }

  /**
   * What the close handler leaves: the first entry whose socket is `channel`
   * is removed, and the scan stops there.
   */
  function AfterClose(entries: seq<Entry>, channel: ChannelId): (r: seq<Entry>)
    ensures |r| <= |entries| <= |r| + 1
    ensures forall e :: e in r ==> e in entries
  {
    if entries == [] then []
    else if entries[0].channel == channel then entries[1..]
    else [entries[0]] + AfterClose(entries[1..], channel)
  }

  lemma {:induction false} AfterCloseAt(entries: seq<Entry>, channel: ChannelId, k: nat)
    requires k < |entries| && entries[k].channel == channel
    requires forall j :: 0 <= j < k ==> entries[j].channel != channel
    ensures AfterClose(entries, channel) == entries[..k] + entries[k + 1..]
  {
    if k > 0 {
      AfterCloseAt(entries[1..], channel, k - 1);
      assert entries[..k] == [entries[0]] + entries[1..][..k - 1];
      assert entries[k + 1..] == entries[1..][k..];
    }
  }

  lemma {:induction false} AfterCloseNone(entries: seq<Entry>, channel: ChannelId)
    requires forall j :: 0 <= j < |entries| ==> entries[j].channel != channel
    ensures AfterClose(entries, channel) == entries
  {
    if entries != [] {
      AfterCloseNone(entries[1..], channel);
    }
  }

  /**
   * The loop over `clients.entries()`: the position of the first entry whose
   * socket is `channel`, or none.
   */
  method FindByChannel(entries: seq<Entry>, channel: ChannelId) returns (found: Option<nat>)
    ensures found.Some? ==> found.value < |entries| && entries[found.value].channel == channel
    ensures found.Some? ==> forall j :: 0 <= j < found.value ==> entries[j].channel != channel
    ensures found.None? ==> forall j :: 0 <= j < |entries| ==> entries[j].channel != channel
  {
    var i := 0;
    while i < |entries|
      invariant i <= |entries|
      invariant forall j :: 0 <= j < i ==> entries[j].channel != channel
    {
      if entries[i].channel == channel {
        return Some(i);
      }
      i := i + 1;
    }
    return None;
  }

  /**
   * Closing a socket removes at most one entry, and only an entry on that
   * socket: every other username keeps its socket, and if any username was
   * on the socket, exactly one entry goes.
   */
  lemma CloseEffect(entries: seq<Entry>, channel: ChannelId)
    requires UniqueKeys(entries)
    ensures var r := AfterClose(entries, channel);
      && UniqueKeys(r)
      && (|r| == |entries| || |r| + 1 == |entries|)
      && (forall u :: Get(r, u) == Get(entries, u) || (Get(entries, u) == Some(channel) && Get(r, u) == None))
      && (forall u, v :: Get(r, u) != Get(entries, u) && Get(r, v) != Get(entries, v) ==> u == v)
      && ((exists u :: Get(entries, u) == Some(channel)) ==> |r| + 1 == |entries|)
  {
    var r := AfterClose(entries, channel);
    if k :| 0 <= k < |entries| && entries[k].channel == channel {
      var first := FirstOnChannel(entries, channel, k);
      AfterCloseAt(entries, channel, first);
      assert r == Delete(entries, entries[first].username) by {
        IndexOfAt(entries, first);
      }
      forall u | Get(r, u) != Get(entries, u) ensures u == entries[first].username {
      }
    } else {
      AfterCloseNone(entries, channel);
    }
  }

  /** Some entry is on `channel`, so there is a first one. */
  lemma FirstOnChannel(entries: seq<Entry>, channel: ChannelId, k: nat) returns (first: nat)
    requires k < |entries| && entries[k].channel == channel
    ensures first <= k && entries[first].channel == channel
    ensures forall j :: 0 <= j < first ==> entries[j].channel != channel
  {
    first := k;
    while exists j :: 0 <= j < first && entries[j].channel == channel
      invariant first <= k && entries[first].channel == channel
      decreases first
    {
      var j :| 0 <= j < first && entries[j].channel == channel;
      first := j;
    }
  }

  /**
   * A username re-registered on a new socket survives the closing of its old
   * socket: the close handler matches sockets, not usernames.
   */
  lemma CloseKeepsReRegistration(entries: seq<Entry>, username: string, previous: ChannelId, current: ChannelId)
    requires UniqueKeys(entries) && previous != current
    ensures Get(AfterClose(Set(entries, username, current), previous), username) == Some(current)
  {
    CloseEffect(Set(entries, username, current), previous);
  }
}
