/** The request/reply correlation table shared, in three near-identical
    copies, by the RabbitMQ clients of BooksService, AuthorService and
    CategoryService.

    A client keeps a dictionary from request id to a waiting
    `TaskCompletionSource`. Sending a request inserts the id, then
    publishes the message with the id as its correlation id, then waits
    for whichever comes first: the reply, or a fixed 30 s timer. The reply
    listener looks the reply's id up, removes the entry and completes the
    waiter; when the timer wins, the sender removes the entry and throws
    `TimeoutException`.

    The model keeps one record per send (`Call`), the pending dictionary,
    and a log of resolved calls, driven by atomic events. Each dictionary
    operation is one step: the real dictionary is shared unsynchronised
    between the listener thread and senders, which this model does not
    capture. */
module Correlation {
  import opened Common

  /** The sender's own wait for a reply, in seconds. */
  const ReplyWaitSeconds: int := 30

  /** The properties of a published request message. */
  datatype Envelope = Envelope(correlationId: string, replyTo: string, typeTag: Option<string>, queue: string)

  /** How a waiter ended: completed by a reply, or its 30 s timer won. */
  datatype Outcome<P> = Replied(payload: P) | TimedOut

  /** Where a send stands: the id has been inserted; the message has been
      published and the timer started; or publishing threw, so the sender
      left with an exception before starting its timer. */
  datatype Phase = Registered | Published(message: Envelope) | PublishFailed

  /** One call of the send method. */
  datatype Call<P> = Call(id: string, sentAt: int, phase: Phase, outcome: Option<Outcome<P>>)

  /** The pending dictionary (id to the call waiting under it), every call
      made so far, and the calls in the order they were resolved. */
  datatype Table<P> = Table(pending: map<string, nat>, calls: seq<Call<P>>, log: seq<nat>)

  /** A new client: each request scope gets its own. */
  function Empty<P>(): Table<P> {
    Table(map[], [], [])
  }

  /** No call so far has used `id` (what a new GUID gives). */
  predicate Fresh<P>(t: Table<P>, id: string) {
    id !in t.pending && forall c :: 0 <= c < |t.calls| ==> t.calls[c].id != id
  }

  predicate Unresolved<P>(t: Table<P>, c: int) {
    0 <= c < |t.calls| && t.calls[c].outcome.None?
  }

  predicate NoDuplicates(s: seq<nat>) {
    forall i, j :: 0 <= i < j < |s| ==> s[i] != s[j]
  }

  /** The table's invariant: the pending entries are exactly the unresolved
      calls, each under its own id; ids are never reused; every call is
      logged once, when it is resolved. */
  ghost predicate Inv<P>(t: Table<P>) {
    && (forall id :: id in t.pending ==>
          t.pending[id] < |t.calls| && t.calls[t.pending[id]].id == id && t.calls[t.pending[id]].outcome.None?)
    && (forall c :: Unresolved(t, c) ==> t.calls[c].id in t.pending && t.pending[t.calls[c].id] == c)
    && (forall c, d :: 0 <= c < d < |t.calls| ==> t.calls[c].id != t.calls[d].id)
    && (forall k :: 0 <= k < |t.log| ==> t.log[k] < |t.calls|)
    && NoDuplicates(t.log)
    && (forall c :: 0 <= c < |t.calls| ==> (t.calls[c].outcome.Some? <==> c in t.log))
  }

  // ---------------------------------------------------------------------
  // Operations
  // ---------------------------------------------------------------------

  /** `_pendingRequests[requestId] = tcs`: the new call is waiting under
      its id before anything is sent. */
  function Register<P>(t: Table<P>, id: string, now: int): (r: Table<P>)
    ensures |r.calls| == |t.calls| + 1 && r.calls[..|t.calls|] == t.calls
    ensures id in r.pending && r.pending[id] == |t.calls|
    ensures forall k :: k in t.pending && k != id ==> k in r.pending && r.pending[k] == t.pending[k]
    ensures r.log == t.log
  {
    Table(t.pending[id := |t.calls|], t.calls + [Call(id, now, Registered, None)], t.log)
  }

  /** `BasicPublish` with `CorrelationId` set to the call's id; the sender
      then starts its timer. The dictionary is not touched. */
  function Publish<P>(t: Table<P>, c: nat, replyTo: string, typeTag: Option<string>, queue: string): (r: Table<P>)
    requires c < |t.calls|
    ensures r.pending == t.pending && r.log == t.log && |r.calls| == |t.calls|
    ensures r.calls[c].phase == Published(Envelope(t.calls[c].id, replyTo, typeTag, queue))
    ensures forall d :: 0 <= d < |t.calls| && d != c ==> r.calls[d] == t.calls[d]
  {
    t.(calls := t.calls[c := t.calls[c].(phase := Published(Envelope(t.calls[c].id, replyTo, typeTag, queue)))])
  }

  /** Serialising or publishing threw: the exception leaves the send method
      before the timer starts, and nothing removes the entry. */
  function PublishFails<P>(t: Table<P>, c: nat): (r: Table<P>)
    requires c < |t.calls|
    ensures r.pending == t.pending && r.log == t.log && |r.calls| == |t.calls|
    ensures r.calls[c].phase == PublishFailed && r.calls[c].outcome == t.calls[c].outcome
  {
    t.(calls := t.calls[c := t.calls[c].(phase := PublishFailed)])
  }

  /** Removes `key` and completes call `c` with `o`. */
  function Resolve<P>(t: Table<P>, key: string, c: nat, o: Outcome<P>): (r: Table<P>)
    requires c < |t.calls|
    ensures key !in r.pending && |r.calls| == |t.calls|
    ensures r.calls[c].outcome == Some(o) && r.log == t.log + [c]
  {
    Table(t.pending - {key}, t.calls[c := t.calls[c].(outcome := Some(o))], t.log + [c])
  }

  /** The listener's `TryGetValue` / `Remove` / `SetResult` on a reply
      carrying `key` (`None` when the reply was dropped before the lookup:
      unknown type, null body, null id, or an exception while decoding). */
  function Deliver<P>(t: Table<P>, key: Option<string>, payload: P): (r: Table<P>)
    ensures key.None? || key.value !in t.pending ==> r == t
    ensures key.Some? && key.value in t.pending && t.pending[key.value] < |t.calls| ==>
      key.value !in r.pending && |r.calls| == |t.calls| && r.calls[t.pending[key.value]].outcome == Some(Replied(payload))
  {
    if key.Some? && key.value in t.pending && t.pending[key.value] < |t.calls| then
      Resolve(t, key.value, t.pending[key.value], Replied(payload))
    else t
  }

  /** The timer may fire once the call has been published, is still
      unresolved, and 30 s have passed since it was sent. */
  predicate TimerMayFire<P>(t: Table<P>, c: int, now: int) {
    Unresolved(t, c) && t.calls[c].phase.Published? && now >= t.calls[c].sentAt + ReplyWaitSeconds
  }

  /** `_pendingRequests.Remove(requestId)` followed by `TimeoutException`. */
  function Expire<P>(t: Table<P>, c: nat): (r: Table<P>)
    requires c < |t.calls|
    ensures t.calls[c].id !in r.pending && |r.calls| == |t.calls| && r.calls[c].outcome == Some(TimedOut)
  {
    Resolve(t, t.calls[c].id, c, TimedOut)
  }

  // ---------------------------------------------------------------------
  // Events
  // ---------------------------------------------------------------------

  datatype Event<P> =
    | RegisterEv(id: string, now: int)
    | PublishEv(call: nat, replyTo: string, typeTag: Option<string>, queue: string)
    | PublishFailsEv(call: nat)
    | ReplyEv(key: Option<string>, payload: P)
    | TimerEv(call: nat, now: int)

  /** One atomic step; `None` when the event cannot happen in this state.
      New ids are fresh GUIDs; a call is published (or fails to be) once,
      right after it registered. */
  function Step<P>(t: Table<P>, e: Event<P>): Option<Table<P>> {
    match e
    case RegisterEv(id, now) =>
      if Fresh(t, id) then Some(Register(t, id, now)) else None
    case PublishEv(c, replyTo, tag, queue) =>
      if c < |t.calls| && t.calls[c].phase == Registered then Some(Publish(t, c, replyTo, tag, queue)) else None
    case PublishFailsEv(c) =>
      if c < |t.calls| && t.calls[c].phase == Registered then Some(PublishFails(t, c)) else None
    case ReplyEv(key, p) => Some(Deliver(t, key, p))
    case TimerEv(c, now) =>
      if TimerMayFire(t, c, now) then Some(Expire(t, c)) else None
  }

  function Run<P>(t: Table<P>, es: seq<Event<P>>): Option<Table<P>>
    decreases |es|
  {
    if es == [] then Some(t)
    else match Step(t, es[0])
      case None => None
      case Some(t1) => Run(t1, es[1..])
  }

  // ---------------------------------------------------------------------
  // The invariant holds in every reachable state
  // ---------------------------------------------------------------------

  lemma EmptyInv<P>()
    ensures Inv(Empty<P>())
  {
  }

  lemma RegisterInv<P>(t: Table<P>, id: string, now: int)
    requires Inv(t) && Fresh(t, id)
    ensures Inv(Register(t, id, now))
  {
    var r := Register(t, id, now);
    forall c | Unresolved(r, c)
      ensures r.calls[c].id in r.pending && r.pending[r.calls[c].id] == c
    {
      if c < |t.calls| {
        assert r.calls[c] == t.calls[c];
        assert Unresolved(t, c);
      }
    }
  }

  lemma PublishInv<P>(t: Table<P>, c: nat, replyTo: string, typeTag: Option<string>, queue: string)
    requires Inv(t) && c < |t.calls|
    ensures Inv(Publish(t, c, replyTo, typeTag, queue))
  {
    var r := Publish(t, c, replyTo, typeTag, queue);
    assert forall d :: 0 <= d < |t.calls| ==> r.calls[d].id == t.calls[d].id && r.calls[d].outcome == t.calls[d].outcome;
  }

  lemma PublishFailsInv<P>(t: Table<P>, c: nat)
    requires Inv(t) && c < |t.calls|
    ensures Inv(PublishFails(t, c))
  {
    var r := PublishFails(t, c);
    assert forall d :: 0 <= d < |t.calls| ==> r.calls[d].id == t.calls[d].id && r.calls[d].outcome == t.calls[d].outcome;
  }

  /** Resolving the call waiting under `key` keeps the invariant. */
  lemma ResolveInv<P>(t: Table<P>, key: string, o: Outcome<P>)
    requires Inv(t) && key in t.pending
    ensures Inv(Resolve(t, key, t.pending[key], o))
  {
    var c := t.pending[key];
    var r := Resolve(t, key, c, o);
    assert t.calls[c].id == key;
    assert c !in t.log;
    forall i, j | 0 <= i < j < |r.log| ensures r.log[i] != r.log[j] {
      if j == |t.log| {
        assert r.log[i] == t.log[i];
      }
    }
    forall id | id in r.pending
      ensures r.pending[id] < |r.calls| && r.calls[r.pending[id]].id == id && r.calls[r.pending[id]].outcome.None?
    {
      assert id != key;
      assert t.pending[id] != c;
    }
    forall d | 0 <= d < |r.calls| ensures r.calls[d].outcome.Some? <==> d in r.log {
      if d != c {
        assert r.calls[d] == t.calls[d];
        assert d in r.log <==> d in t.log;
      }
    }
  }

  lemma DeliverInv<P>(t: Table<P>, key: Option<string>, p: P)
    requires Inv(t)
    ensures Inv(Deliver(t, key, p))
  {
    if key.Some? && key.value in t.pending {
      ResolveInv(t, key.value, Replied(p));
    }
  }

  lemma ExpireInv<P>(t: Table<P>, c: nat)
    requires Inv(t) && Unresolved(t, c)
    ensures Inv(Expire(t, c))
  {
    ResolveInv(t, t.calls[c].id, TimedOut);
  }

  /** Every step keeps the invariant. */
  lemma StepInv<P>(t: Table<P>, e: Event<P>)
    requires Inv(t) && Step(t, e).Some?
    ensures Inv(Step(t, e).value)
  {
    match e
    case RegisterEv(id, now) => RegisterInv(t, id, now);
    case PublishEv(c, replyTo, tag, queue) => PublishInv(t, c, replyTo, tag, queue);
    case PublishFailsEv(c) => PublishFailsInv(t, c);
    case ReplyEv(key, p) => DeliverInv(t, key, p);
    case TimerEv(c, now) => ExpireInv(t, c);
  }

  /** Every state reachable from a new client satisfies the invariant; in
      particular each call is resolved at most once (the log holds no
      call twice) and each pending entry is an unresolved call. */
  lemma {:induction false} RunInv<P>(t: Table<P>, es: seq<Event<P>>)
    requires Inv(t) && Run(t, es).Some?
    ensures Inv(Run(t, es).value)
    decreases |es|
  {
    if es != [] {
      StepInv(t, es[0]);
      RunInv(Step(t, es[0]).value, es[1..]);
    }
  }

  // ---------------------------------------------------------------------
  // Replies
  // ---------------------------------------------------------------------

  /** Registering a fresh id and publishing its call keeps the invariant. */
  lemma SendKeepsInv<P>(t: Table<P>, id: string, now: int, replyTo: string, typeTag: Option<string>, queue: string)
    ensures Inv(t) && Fresh(t, id) ==> Inv(Publish(Register(t, id, now), |t.calls|, replyTo, typeTag, queue))
  {
    if Inv(t) && Fresh(t, id) {
      RegisterInv(t, id, now);
      PublishInv(Register(t, id, now), |t.calls|, replyTo, typeTag, queue);
    }
  }

  /** The entry is inserted before the request is published, so a reply
      that follows the publication finds its waiter and completes it. */
  lemma ReplyAfterPublishFindsWaiter<P>(t: Table<P>, id: string, now: int, replyTo: string,
                                       typeTag: Option<string>, queue: string, p: P)
    requires Inv(t) && Fresh(t, id)
    ensures var sent := Publish(Register(t, id, now), |t.calls|, replyTo, typeTag, queue);
      && sent.calls[|t.calls|].phase.Published?
      && sent.calls[|t.calls|].phase.message.correlationId == id
      && id in sent.pending
      && Deliver(sent, Some(id), p).calls[|t.calls|].outcome == Some(Replied(p))
  {
  }

  /** A reply whose id is not pending leaves the table as it was. */
  lemma StaleReplyDropped<P>(t: Table<P>, key: Option<string>, p: P)
    requires key.None? || key.value !in t.pending
    ensures Deliver(t, key, p) == t
  {
  }

  /** A matching reply removes only its own entry, completes only its own
      call, and leaves every other entry and call alone. */
  lemma ReplyTouchesOnlyItsEntry<P>(t: Table<P>, id: string, p: P)
    requires Inv(t) && id in t.pending
    ensures var r := Deliver(t, Some(id), p);
      && r.pending == t.pending - {id}
      && |r.calls| == |t.calls|
      && (forall d :: 0 <= d < |t.calls| && d != t.pending[id] ==> r.calls[d] == t.calls[d])
  {
  }

  /** Once a reply has completed a call, a duplicate of that reply finds
      nothing and changes nothing. */
  lemma DuplicateReplyDropped<P>(t: Table<P>, id: string, p: P, q: P)
    requires Inv(t) && id in t.pending
    ensures var r := Deliver(t, Some(id), p);
      Deliver(r, Some(id), q) == r
  {
  }

  /** After the timer has removed the entry, a late reply is dropped and
      the call stays timed out. */
  lemma LateReplyDropped<P>(t: Table<P>, c: nat, p: P)
    requires Inv(t) && Unresolved(t, c)
    ensures var r := Expire(t, c);
      && Deliver(r, Some(t.calls[c].id), p) == r
      && r.calls[c].outcome == Some(TimedOut)
  {
  }

  /** A step never changes how a resolved call ended. */
  lemma StepKeepsOutcome<P>(t: Table<P>, e: Event<P>, c: nat)
    requires Inv(t) && Step(t, e).Some? && c < |t.calls| && t.calls[c].outcome.Some?
    ensures c < |Step(t, e).value.calls| && Step(t, e).value.calls[c].outcome == t.calls[c].outcome
  {
    match e
    case ReplyEv(key, p) =>
      if key.Some? && key.value in t.pending {
        assert t.pending[key.value] != c;
      }
    case TimerEv(d, now) =>
    case _ =>
  }

  /** Each call is resolved at most once: along any run, a call's outcome,
      once set, never changes. */
  lemma {:induction false} ResolvedAtMostOnce<P>(t: Table<P>, es: seq<Event<P>>, c: nat)
    requires Inv(t) && Run(t, es).Some? && c < |t.calls| && t.calls[c].outcome.Some?
    ensures c < |Run(t, es).value.calls| && Run(t, es).value.calls[c].outcome == t.calls[c].outcome
    decreases |es|
  {
    if es != [] {
      StepKeepsOutcome(t, es[0], c);
      StepInv(t, es[0]);
      ResolvedAtMostOnce(Step(t, es[0]).value, es[1..], c);
    }
  }

  // ---------------------------------------------------------------------
  // The 30 s timer and the entries it leaves behind
  // ---------------------------------------------------------------------

  /** Only two things remove a waiting entry: a reply carrying its id, or
      its own timer after 30 s. */
  lemma OnlyReplyOrOwnTimerRemoves<P>(t: Table<P>, e: Event<P>, c: nat)
    requires Inv(t) && Unresolved(t, c) && Step(t, e).Some?
    requires t.calls[c].id !in Step(t, e).value.pending
    ensures || (e.ReplyEv? && e.key == Some(t.calls[c].id))
            || (e.TimerEv? && e.call == c && e.now >= t.calls[c].sentAt + ReplyWaitSeconds)
  {
    match e
    case RegisterEv(id, now) =>
    case PublishEv(d, replyTo, tag, queue) =>
    case PublishFailsEv(d) =>
    case ReplyEv(key, p) =>
    case TimerEv(d, now) =>
  }

  /** Along any run in which no reply carries the call's id and no event
      happens 30 s or more after it was sent, an unresolved call keeps its
      entry. The callers' outer timeouts (10, 5 and 3 s) are all shorter
      than 30 s, so a caller that gives up leaves its entry behind. */
  lemma {:induction false} EntryLingersUntilOwnTimer<P>(t: Table<P>, es: seq<Event<P>>, c: nat)
    requires Inv(t) && Unresolved(t, c) && Run(t, es).Some?
    requires forall k :: 0 <= k < |es| ==> !(es[k].ReplyEv? && es[k].key == Some(t.calls[c].id))
    requires forall k :: 0 <= k < |es| && es[k].TimerEv? ==> es[k].now < t.calls[c].sentAt + ReplyWaitSeconds
    ensures var r := Run(t, es).value;
      c < |r.calls| && r.calls[c].id == t.calls[c].id && r.calls[c].sentAt == t.calls[c].sentAt
      && Unresolved(r, c) && t.calls[c].id in r.pending && r.pending[t.calls[c].id] == c
    decreases |es|
  {
    if es != [] {
      var t1 := Step(t, es[0]).value;
      StepKeepsEntry(t, es[0], c);
      assert forall k :: 0 <= k < |es[1..]| ==> es[1..][k] == es[k + 1];
      EntryLingersUntilOwnTimer(t1, es[1..], c);
    }
  }

  /** One step of the run above: an event that is neither the call's reply
      nor its own expired timer leaves the call and its entry in place. */
  lemma StepKeepsEntry<P>(t: Table<P>, e: Event<P>, c: nat)
    requires Inv(t) && Unresolved(t, c) && Step(t, e).Some?
    requires !(e.ReplyEv? && e.key == Some(t.calls[c].id))
    requires e.TimerEv? ==> e.now < t.calls[c].sentAt + ReplyWaitSeconds
    ensures var t1 := Step(t, e).value;
      && Inv(t1) && c < |t1.calls| && t1.calls[c].id == t.calls[c].id && t1.calls[c].sentAt == t.calls[c].sentAt
      && Unresolved(t1, c) && t.calls[c].id in t1.pending && t1.pending[t.calls[c].id] == c
  {
    var t1 := Step(t, e).value;
    StepInv(t, e);
    if t.calls[c].id !in t1.pending {
      OnlyReplyOrOwnTimerRemoves(t, e, c);
      assert false;
    }
  }

  /** A send whose publication threw never starts its timer, so its entry
      can only leave through a reply carrying its id. */
  lemma FailedPublishNeverTimesOut<P>(t: Table<P>, c: nat, now: int)
    requires c < |t.calls| && t.calls[c].phase == PublishFailed
    ensures Step(t, TimerEv(c, now)) == None
  {
  }
}
