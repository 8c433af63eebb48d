/**
 * The four request handlers over an in-memory store. The participants and
 * messages collections are sequences in insertion order; findOne is a lookup,
 * insertOne an append, find().toArray() a read of the whole sequence.
 */
module ChatServer {
  import opened Wrappers
  import opened ChatTypes
  import opened MessageWindow

  const Ok: nat := 200
  const Created: nat := 201
  const Conflict: nat := 409
  const Unprocessable: nat := 422
  const ServerError: nat := 500

  /**
   * Whether a call to the store throws. `FailOnCall(i)` makes the handler's
   * i-th store call (counted from 0) fail; the calls before it succeed.
   */
  datatype StoreFault = NoFault | FailOnCall(index: nat)

  predicate FailsOn(fault: StoreFault, call: nat)
  {
    fault == FailOnCall(call)
  }

  class ChatStore {
    var participants: seq<Participant>
    var messages: seq<Message>

    ghost predicate Valid()
      reads this
    {
      StoreInvariant(participants, messages)
    }

    constructor ()
      ensures Valid() && participants == [] && messages == []
    {
      participants := [];
      messages := [];
    }

    /**
     * POST /participants. Store calls: 0 looks the name up, 1 inserts the
     * announcement, 2 inserts the participant. A failure of call 2 leaves the
     * announcement stored. `time` is the formatted clock reading, which is
     * never empty.
     */
    method Register(name: Option<string>, lastStatus: int, time: string, fault: StoreFault)
      returns (status: nat)
      requires Valid()
      requires time != []
      modifies this
      ensures Valid()
      ensures status == Created <==>
        ValidName(name) && !Registered(old(participants), name.value)
        && !FailsOn(fault, 0) && !FailsOn(fault, 1) && !FailsOn(fault, 2)
      ensures !ValidName(name) ==> status == Unprocessable && unchanged(this)
      ensures ValidName(name) && FailsOn(fault, 0) ==> status == ServerError && unchanged(this)
      ensures ValidName(name) && !FailsOn(fault, 0) && Registered(old(participants), name.value) ==>
        status == Conflict && unchanged(this)
      ensures ValidName(name) && !FailsOn(fault, 0) && !Registered(old(participants), name.value) ==>
        && messages == old(messages) + (if FailsOn(fault, 1) then [] else [EntryMessage(name.value, time)])
        && participants == old(participants) +
             (if FailsOn(fault, 1) || FailsOn(fault, 2) then [] else [Participant(name.value, lastStatus)])
        && status == (if FailsOn(fault, 1) || FailsOn(fault, 2) then ServerError else Created)
    {
      if !ValidName(name) {
        return Unprocessable;
      }
      if FailsOn(fault, 0) {
        return ServerError;
      }
      var existing := FindByName(participants, name.value);
      if existing.Some? {
        return Conflict;
      }
      if FailsOn(fault, 1) {
        return ServerError;
      }
      AnnouncePreservesInvariant(participants, messages, name.value, time);
      messages := messages + [EntryMessage(name.value, time)];
      if FailsOn(fault, 2) {
        return ServerError;
      }
      AdmitPreservesInvariant(participants, messages, Participant(name.value, lastStatus));
      participants := participants + [Participant(name.value, lastStatus)];
      status := Created;
    }

    /** GET /participants: every participant, in store order. Store call 0 reads them. */
    method ListParticipants(fault: StoreFault) returns (status: nat, body: seq<Participant>)
      ensures FailsOn(fault, 0) ==> status == ServerError && body == []
      ensures !FailsOn(fault, 0) ==> status == Ok && body == participants
    {
      if FailsOn(fault, 0) {
        return ServerError, [];
      }
      status, body := Ok, participants;
    }

    /**
     * POST /messages, with `user` the value of the `user` header. Store calls:
     * 0 looks the sender up, 1 inserts the message; a failure of either is
     * answered with 422.
     */
    method PostMessage(user: Option<string>, to: Option<string>, text: Option<string>,
                       kind: Option<string>, time: string, fault: StoreFault)
      returns (status: nat)
      requires Valid()
      modifies this
      ensures Valid()
      ensures participants == old(participants)
      ensures status == Created || status == Unprocessable
      ensures status == Created <==>
        ValidPost(user, to, text, kind, time) && Registered(old(participants), user.value)
        && !FailsOn(fault, 0) && !FailsOn(fault, 1)
      ensures status == Created ==>
        messages == old(messages) + [Message(user.value, to.value, text.value, kind.value, time)]
      ensures status == Created ==> messages[|messages| - 1].kind != StatusType
      ensures status != Created ==> messages == old(messages)
    {
      if !ValidPost(user, to, text, kind, time) {
        return Unprocessable;
      }
      if FailsOn(fault, 0) {
        return Unprocessable;
      }
      var sender := FindByName(participants, user.value);
      if sender.None? {
        return Unprocessable;
      }
      if FailsOn(fault, 1) {
        return Unprocessable;
      }
      var m := Message(user.value, to.value, text.value, kind.value, time);
      PostPreservesInvariant(participants, messages, m);
      messages := messages + [m];
      status := Created;
    }

    /**
     * GET /messages, with `user` the `user` header and `limit` the parsed query
     * parameter (`None` for NaN). The response is always sent with status 200.
     */
    method ListMessages(user: Option<string>, limit: Option<int>) returns (status: nat, body: seq<Message>)
      ensures status == Ok
      ensures body == Window(messages, user, limit)
      ensures forall m :: m in body ==> m in messages && Relevant(m, user)
    {
      status, body := Ok, Window(messages, user, limit);
    }
  }
}
