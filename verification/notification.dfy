/** The notification hub: one bounded queue of pending changes per
    subscribed client. Channels become the sequence of changes still
    waiting in them; the mutex is left out, so every operation is one
    atomic step. */
module Notification {
  import opened Wrappers

  /** Every subscriber's channel is buffered to this many changes. */
  const Capacity := 10

  datatype Change = Change(
    configId: int,
    configName: string,
    namespace: string,
    env: string,
    version: int,
    changeType: string)

  /** Client id to the changes queued for it, oldest first. */
  type Hub = map<string, seq<Change>>

  const NewHub: Hub := map[]

  /** No queue holds more than its buffer. */
  predicate Bounded(h: Hub) {
    forall c :: c in h ==> |h[c]| <= Capacity
  }

  /** Subscribe: a fresh, empty queue under `clientId`, replacing whatever
      was registered for it. The config ids are accepted and dropped. */
  function Subscribe(h: Hub, clientId: string, configIds: seq<int>): (r: Hub)
    ensures r.Keys == h.Keys + {clientId}
    ensures r[clientId] == []
    ensures forall c :: c in h && c != clientId ==> r[c] == h[c]
  {
    h[clientId := []]
  }

  /** Unsubscribe: the entry is removed (and its channel closed); an absent
      client leaves the hub as it is. */
  function Unsubscribe(h: Hub, clientId: string): (r: Hub)
    ensures r.Keys == h.Keys - {clientId}
    ensures forall c :: c in r ==> r[c] == h[c]
    ensures clientId !in h ==> r == h
  {
    h - {clientId}
  }

  /** One non-blocking send: a full queue drops the change. */
  function Offer(q: seq<Change>, change: Change): (r: seq<Change>)
    ensures |q| < Capacity ==> r == q + [change]
    ensures |q| >= Capacity ==> r == q
  {
    if |q| < Capacity then q + [change] else q
  }

  /** NotifyChange: the change is offered to every subscriber, whatever
      configs it asked about; subscribers whose queue is full miss it. */
  function NotifyChange(h: Hub, change: Change): (r: Hub)
    ensures r.Keys == h.Keys
    ensures forall c :: c in h && |h[c]| < Capacity ==> r[c] == h[c] + [change]
    ensures forall c :: c in h && |h[c]| >= Capacity ==> r[c] == h[c]
  {
    map c | c in h :: Offer(h[c], change)
  }

  /** A client reading its channel: the oldest pending change, if any. */
  function Receive(h: Hub, clientId: string): (r: Option<(Change, Hub)>)
    ensures r.None? <==> clientId !in h || h[clientId] == []
    ensures r.Some? ==> r.value.1.Keys == h.Keys
    ensures r.Some? ==> h[clientId] == [r.value.0] + r.value.1[clientId]
    ensures r.Some? ==> forall c :: c in h && c != clientId ==> r.value.1[c] == h[c]
  {
    if clientId !in h || h[clientId] == [] then None
    else Some((h[clientId][0], h[clientId := h[clientId][1..]]))
  }

  /** Every operation keeps the queues within their buffers. */
  lemma OperationsStayBounded(h: Hub, clientId: string, configIds: seq<int>, change: Change)
    requires Bounded(h)
    ensures Bounded(Subscribe(h, clientId, configIds))
    ensures Bounded(Unsubscribe(h, clientId))
    ensures Bounded(NotifyChange(h, change))
    ensures Receive(h, clientId).Some? ==> Bounded(Receive(h, clientId).value.1)
  {
  }

  /** Unsubscribing twice is unsubscribing once. */
  lemma UnsubscribeIdempotent(h: Hub, clientId: string)
    ensures Unsubscribe(Unsubscribe(h, clientId), clientId) == Unsubscribe(h, clientId)
  {
  }

  /** Which configs a client asked about makes no difference. */
  lemma ConfigIdsIgnored(h: Hub, clientId: string, a: seq<int>, b: seq<int>, change: Change)
    ensures NotifyChange(Subscribe(h, clientId, a), change) == NotifyChange(Subscribe(h, clientId, b), change)
  {
  }

  /** A client that subscribes and then hears of a change receives exactly
      that change, whatever the change is about. */
  lemma SubscriberReceives(h: Hub, clientId: string, configIds: seq<int>, change: Change)
    ensures Receive(NotifyChange(Subscribe(h, clientId, configIds), change), clientId)
      == Some((change, NotifyChange(Subscribe(h, clientId, configIds), change)[clientId := []]))
  {
    var h1 := NotifyChange(Subscribe(h, clientId, configIds), change);
    assert h1[clientId] == [change];
  }

  /** Changes leave in the order they were sent, as long as the queue has
      room for both. */
  lemma FirstInFirstOut(h: Hub, clientId: string, a: Change, b: Change)
    requires clientId in h && h[clientId] == []
    ensures var h2 := NotifyChange(NotifyChange(h, a), b);
      Receive(h2, clientId).Some? && Receive(h2, clientId).value.0 == a
      && Receive(Receive(h2, clientId).value.1, clientId).Some?
      && Receive(Receive(h2, clientId).value.1, clientId).value.0 == b
  {
    var h2 := NotifyChange(NotifyChange(h, a), b);
    assert h2[clientId] == [a, b];
    assert h2[clientId][1..] == [b];
  }
}
