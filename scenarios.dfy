/** Request sequences against a fresh store, with the outcome each must have. */
module Scenarios {
  import opened Wrappers
  import opened ChatTypes
  import opened MessageWindow
  import opened ChatServer

  /** Registering a valid name succeeds once; the second registration conflicts. */
  method RegisterTwice(name: string, t0: int, t1: int, time: string) returns (first: nat, second: nat)
    requires ValidName(Some(name)) && time != []
    ensures first == Created && second == Conflict
  {
    var store := new ChatStore();
    first := store.Register(Some(name), t0, time, NoFault);
    assert store.participants[0].name == name;
    second := store.Register(Some(name), t1, time, NoFault);
  }

  /** A post whose sender never registered is refused and nothing is stored. */
  method PostFromStranger(user: string, to: string, text: string, kind: string, time: string)
    returns (status: nat, stored: nat)
    ensures status == Unprocessable && stored == 0
  {
    var store := new ChatStore();
    status := store.PostMessage(Some(user), Some(to), Some(text), Some(kind), time, NoFault);
    stored := |store.messages|;
  }

  /** Two broadcast messages form the whole default window of any reader. */
  lemma DefaultWindowOfBroadcasts(e: Message, m: Message, reader: Option<string>)
    requires e.to == Broadcast && m.to == Broadcast
    ensures Window([e, m], reader, None) == [e, m]
  {
    assert [e, m] == [e] + [m];
    InboxAppend([e], [m], reader);
    assert Inbox([e], reader) == [e];
    assert Inbox([m], reader) == [m];
  }

  /**
   * After registering, a participant's broadcast post is the newest message in
   * every participant's default window, right after the announcement.
   */
  method JoinAndPost(name: string, reader: Option<string>, text: string, t0: int, time: string)
    returns (posted: nat, window: seq<Message>)
    requires ValidName(Some(name)) && text != [] && time != []
    ensures posted == Created
    ensures window == [EntryMessage(name, time), Message(name, Broadcast, text, MessageType, time)]
  {
    var store := new ChatStore();
    var joined := store.Register(Some(name), t0, time, NoFault);
    assert store.participants[0].name == name;
    assert store.messages == [EntryMessage(name, time)];
    assert ValidPost(Some(name), Some(Broadcast), Some(text), Some(MessageType), time);
    posted := store.PostMessage(Some(name), Some(Broadcast), Some(text), Some(MessageType), time, NoFault);
    var status;
    status, window := store.ListMessages(reader, None);
    DefaultWindowOfBroadcasts(EntryMessage(name, time), Message(name, Broadcast, text, MessageType, time), reader);
  }
}
