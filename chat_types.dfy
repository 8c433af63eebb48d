/**
 * The two documents the chat backend stores (participants and messages),
 * the request validation rules of its handlers, the participant lookup,
 * and the invariant that ties the two collections together.
 */
module ChatTypes {
  import opened Wrappers

  /** The recipient that addresses every participant. */
  const Broadcast: string := "Todos"
  /** The text of the status message announcing a new participant. */
  const EnterText: string := "entrar na sala..."
  const StatusType: string := "status"
  const MessageType: string := "message"
  const PrivateType: string := "private_message"
  const MaxNameLength: nat := 30

  /** A participant document; `lastStatus` is the clock reading taken at registration. */
  datatype Participant = Participant(name: string, lastStatus: int)

  /** A message document; `kind` holds the document's `type` field, `time` the formatted clock. */
  datatype Message = Message(from: string, to: string, text: string, kind: string, time: string)

  // ---------------------------------------------------------------------------
  // Validation. A body field or header is `None` when it is absent or is not a
  // string: joi.string() rejects both, and rejects the empty string as well.
  // ---------------------------------------------------------------------------

  /** joi.string().required(): a present, non-empty string. */
  predicate JoiString(v: Option<string>)
  {
    v.Some? && |v.value| > 0
  }

  /** The participant name rule: joi.string().min(1).max(30).required(). */
  predicate ValidName(name: Option<string>)
  {
    name.Some? && 1 <= |name.value| <= MaxNameLength
  }

  /** Types a user may post; status messages are only written by registration. */
  predicate PostableType(kind: string)
  {
    kind == MessageType || kind == PrivateType
  }

  /**
   * The checks POST /messages makes before touching the store: every field of the
   * message document is a non-empty string and the type is a postable one.
   */
  function ValidPost(user: Option<string>, to: Option<string>, text: Option<string>,
                     kind: Option<string>, time: string): (ok: bool)
    ensures ok <==> user.Some? && to.Some? && text.Some? && kind.Some?
                    && IsUserPost(Message(user.value, to.value, text.value, kind.value, time))
    ensures ok ==> kind.value != StatusType
  {
    JoiString(user) && JoiString(to) && JoiString(text) && JoiString(kind)
    && JoiString(Some(time)) && PostableType(kind.value)
  }

  // ---------------------------------------------------------------------------
  // The object handed to the validator by POST /participants, as written.
  // ---------------------------------------------------------------------------

  /** Keys of the participant document that POST /participants validates. */
  const ParticipantDocKeys: set<string> := {"name", "lastStatus"}
  /** Keys the POST /participants schema declares. */
  const ParticipantSchemaKeys: set<string> := {"name"}

  /**
   * joi.object(schema).validate(doc) as the handler calls it: the name rule, and,
   * since a joi object refuses undeclared keys by default, no key outside the schema.
   */
  predicate ParticipantDocAcceptedAsWritten(name: Option<string>)
  {
    ValidName(name) && ParticipantDocKeys <= ParticipantSchemaKeys
  }

  /** As written, the validator refuses every registration, valid name or not. */
  lemma RegistrationRefusedAsWritten(name: Option<string>)
    ensures !ParticipantDocAcceptedAsWritten(name)
  {
  }

  /** Even a plainly valid name is refused by the validator as written. */
  lemma ValidNameRefusedAsWritten()
    ensures ValidName(Some("Alice")) && !ParticipantDocAcceptedAsWritten(Some("Alice"))
  {
  }

  // ---------------------------------------------------------------------------
  // Lookup.
  // ---------------------------------------------------------------------------

  ghost predicate Registered(ps: seq<Participant>, name: string)
  {
    exists i :: 0 <= i < |ps| && ps[i].name == name
  }

  /**
   * findOne({ name }) on the participants collection. The handlers use only
   * whether a document is found, so which of several matches is returned is
   * left open.
   */
  function FindByName(ps: seq<Participant>, name: string): (r: Option<Participant>)
    ensures r.Some? <==> Registered(ps, name)
    ensures r.Some? ==> r.value in ps && r.value.name == name
  {
    if ps == [] then None
    else if ps[0].name == name then Some(ps[0])
    else
      var r := FindByName(ps[1..], name);
      assert Registered(ps[1..], name) ==> Registered(ps, name) by {
        if Registered(ps[1..], name) {
          var i :| 0 <= i < |ps[1..]| && ps[1..][i].name == name;
          assert ps[i + 1].name == name;
        }
      }
      assert Registered(ps, name) ==> Registered(ps[1..], name) by {
        if Registered(ps, name) {
          var i :| 0 <= i < |ps| && ps[i].name == name;
          assert i != 0;
          assert ps[1..][i - 1].name == name;
        }
      }
      r
  }

  // ---------------------------------------------------------------------------
  // The store invariant.
  // ---------------------------------------------------------------------------

  /** The status message registration writes for `name`. */
  function EntryMessage(name: string, time: string): Message
  {
    Message(name, Broadcast, EnterText, StatusType, time)
  }

  predicate IsEntry(m: Message)
  {
    m.to == Broadcast && m.text == EnterText && m.kind == StatusType
    && 1 <= |m.from| <= MaxNameLength && m.time != []
  }

  predicate IsUserPost(m: Message)
  {
    m.from != [] && m.to != [] && m.text != [] && m.time != [] && PostableType(m.kind)
  }

  ghost predicate NamesUnique(ps: seq<Participant>)
  {
    forall i, j :: 0 <= i < j < |ps| ==> ps[i].name != ps[j].name
  }

  /** Some status message announces that `name` entered the room. */
  ghost predicate Announced(ms: seq<Message>, name: string)
  {
    exists j :: 0 <= j < |ms| && IsEntry(ms[j]) && ms[j].from == name
  }

  /**
   * What the handlers keep true of the two collections: names are pairwise
   * distinct and valid, every participant was announced by a status message,
   * and every message is either such an announcement or a user post whose
   * sender is registered.
   */
  ghost predicate StoreInvariant(ps: seq<Participant>, ms: seq<Message>)
  {
    && NamesUnique(ps)
    && (forall i :: 0 <= i < |ps| ==> 1 <= |ps[i].name| <= MaxNameLength && Announced(ms, ps[i].name))
    && (forall j :: 0 <= j < |ms| ==> IsEntry(ms[j]) || (IsUserPost(ms[j]) && Registered(ps, ms[j].from)))
  }

  /** Appending the announcement for a valid name keeps the invariant. */
  lemma AnnouncePreservesInvariant(ps: seq<Participant>, ms: seq<Message>, name: string, time: string)
    requires StoreInvariant(ps, ms)
    requires ValidName(Some(name)) && time != []
    ensures StoreInvariant(ps, ms + [EntryMessage(name, time)])
    ensures Announced(ms + [EntryMessage(name, time)], name)
  {
    var ms' := ms + [EntryMessage(name, time)];
    assert IsEntry(ms'[|ms|]);
    forall i | 0 <= i < |ps|
      ensures Announced(ms', ps[i].name)
    {
      var j :| 0 <= j < |ms| && IsEntry(ms[j]) && ms[j].from == ps[i].name;
      assert ms'[j] == ms[j];
    }
  }

  /** Appending an announced participant whose name is new keeps the invariant. */
  lemma AdmitPreservesInvariant(ps: seq<Participant>, ms: seq<Message>, p: Participant)
    requires StoreInvariant(ps, ms)
    requires ValidName(Some(p.name)) && Announced(ms, p.name) && !Registered(ps, p.name)
    ensures StoreInvariant(ps + [p], ms)
    ensures Registered(ps + [p], p.name)
  {
    var ps' := ps + [p];
    assert ps'[|ps|] == p;
    forall j | 0 <= j < |ms| && !IsEntry(ms[j])
      ensures Registered(ps', ms[j].from)
    {
      var i :| 0 <= i < |ps| && ps[i].name == ms[j].from;
      assert ps'[i] == ps[i];
    }
  }

  /** Appending a well-formed post from a registered sender keeps the invariant. */
  lemma PostPreservesInvariant(ps: seq<Participant>, ms: seq<Message>, m: Message)
    requires StoreInvariant(ps, ms)
    requires IsUserPost(m) && Registered(ps, m.from)
    ensures StoreInvariant(ps, ms + [m])
  {
    var ms' := ms + [m];
    forall i | 0 <= i < |ps|
      ensures Announced(ms', ps[i].name)
    {
      var j :| 0 <= j < |ms| && IsEntry(ms[j]) && ms[j].from == ps[i].name;
      assert ms'[j] == ms[j];
    }
  }

  /** In a store that keeps the invariant, every status message is a registration announcement. */
  lemma StatusMessagesAreAnnouncements(ps: seq<Participant>, ms: seq<Message>, j: nat)
    requires StoreInvariant(ps, ms)
    requires j < |ms| && ms[j].kind == StatusType
    ensures ms[j] == EntryMessage(ms[j].from, ms[j].time)
  {
  }
}
