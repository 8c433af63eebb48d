/**
 * GET /messages: keep the messages relevant to the requesting user, then take
 * the JavaScript `slice(-limit)` of them, or `slice(-100)` when the parsed
 * limit is falsy (NaN or 0).
 */
module MessageWindow {
  import opened Wrappers
  import opened ChatTypes

  /** The window size used when the limit parses to NaN or 0. */
  const DefaultLimit: nat := 100

  function Min(a: int, b: int): int
  {
    if a <= b then a else b
  }

  /** `r` is a contiguous final segment of `s`. */
  predicate IsSuffix<T(==)>(r: seq<T>, s: seq<T>)
  {
    |r| <= |s| && r == s[|s| - |r|..]
  }

  /**
   * The filter of GET /messages: sent by the user, addressed to the user, or
   * broadcast. A missing `user` header matches no sender and no recipient.
   */
  predicate Relevant(m: Message, user: Option<string>)
  {
    (user.Some? && (m.from == user.value || m.to == user.value)) || m.to == Broadcast
  }

  /** The stored messages relevant to `user`, in insertion order. */
  function Inbox(ms: seq<Message>, user: Option<string>): (r: seq<Message>)
    ensures |r| <= |ms|
    ensures forall m :: m in r ==> m in ms && Relevant(m, user)
  {
    if ms == [] then []
    else (if Relevant(ms[0], user) then [ms[0]] else []) + Inbox(ms[1..], user)
  }

  /** Filtering distributes over concatenation: the filter keeps insertion order. */
  lemma {:induction false} InboxAppend(a: seq<Message>, b: seq<Message>, user: Option<string>)
    ensures Inbox(a + b, user) == Inbox(a, user) + Inbox(b, user)
  {
    if a == [] {
      assert a + b == b;
    } else {
      assert (a + b)[0] == a[0];
      assert (a + b)[1..] == a[1..] + b;
      InboxAppend(a[1..], b, user);
    }
  }

  /** The filter is sound and complete: it keeps exactly the relevant messages. */
  lemma {:induction false} InboxMembership(ms: seq<Message>, user: Option<string>, m: Message)
    ensures m in Inbox(ms, user) <==> m in ms && Relevant(m, user)
  {
    if ms != [] && m != ms[0] && m in ms {
      assert m in ms[1..];
      InboxMembership(ms[1..], user, m);
    }
  }

  /**
   * ECMAScript's Array.prototype.slice(start) with no end argument, for an
   * integral `start`: a negative start counts back from the end and is clamped
   * at 0, a non-negative one is clamped at the length.
   */
  function SliceFrom<T>(s: seq<T>, start: int): (r: seq<T>)
    ensures IsSuffix(r, s)
    ensures start < 0 ==> |r| == Min(-start, |s|)
    ensures start >= 0 ==> |r| == |s| - Min(start, |s|)
  {
    var k := if start < 0 then (if |s| + start < 0 then 0 else |s| + start)
             else (if start < |s| then start else |s|);
    s[k..]
  }

  /** The argument passed to slice: `-limit` for a truthy limit, `-100` otherwise. */
  function SliceStart(limit: Option<int>): int
  {
    if limit.Some? && limit.value != 0 then -limit.value else -(DefaultLimit as int)
  }

  /** The response body of GET /messages over the snapshot `ms`. */
  function Window(ms: seq<Message>, user: Option<string>, limit: Option<int>): (r: seq<Message>)
    ensures IsSuffix(r, Inbox(ms, user))
    ensures forall m :: m in r ==> m in ms && Relevant(m, user)
  {
    SliceFrom(Inbox(ms, user), SliceStart(limit))
  }

  /** Without a truthy limit the window is exactly the last min(100, n) relevant messages. */
  lemma WindowDefault(ms: seq<Message>, user: Option<string>, limit: Option<int>)
    requires limit == None || limit == Some(0)
    ensures var f := Inbox(ms, user);
            Window(ms, user, limit) == f[|f| - Min(DefaultLimit, |f|)..]
  {
  }

  /** A positive limit k gives exactly the last min(k, n) relevant messages. */
  lemma WindowPositiveLimit(ms: seq<Message>, user: Option<string>, k: int)
    requires k > 0
    ensures var f := Inbox(ms, user);
            Window(ms, user, Some(k)) == f[|f| - Min(k, |f|)..]
  {
  }

  /** A negative limit k drops the first |k| relevant messages, as slice(-k) does. */
  lemma WindowNegativeLimit(ms: seq<Message>, user: Option<string>, k: int)
    requires k < 0
    ensures var f := Inbox(ms, user);
            Window(ms, user, Some(k)) == f[Min(-k, |f|)..]
  {
  }

  /**
   * After a relevant message is stored, a window with a limit that is absent,
   * zero or positive ends with that message.
   */
  lemma WindowShowsNewest(ms: seq<Message>, m: Message, user: Option<string>, limit: Option<int>)
    requires Relevant(m, user)
    requires limit == None || limit.value >= 0
    ensures var w := Window(ms + [m], user, limit);
            |w| > 0 && w[|w| - 1] == m
  {
    InboxAppend(ms, [m], user);
    assert Inbox([m], user) == [m];
  }

  /** Storing a message irrelevant to `user` leaves that user's window unchanged. */
  lemma WindowIgnoresIrrelevant(ms: seq<Message>, m: Message, user: Option<string>, limit: Option<int>)
    requires !Relevant(m, user)
    ensures Window(ms + [m], user, limit) == Window(ms, user, limit)
  {
    InboxAppend(ms, [m], user);
    assert Inbox([m], user) == [];
    assert Inbox(ms, user) + [] == Inbox(ms, user);
  }
}
