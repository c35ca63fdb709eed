/** LocalStreamConnector: a rendezvous of accepts and connection requests per bound address.
    An accept with a request already waiting (or a request with an accept already waiting)
    pairs with the oldest one at once; otherwise it waits at the back of its queue.

    The registry of bound addresses is shared by every connector; here it is a map from
    address to a connector's position in `connectors`. A task is named by a number; a
    pairing completes both tasks with the two ends of a new connected LocalStream pair. Each
    call is one atomic step.

    Behaviour kept as written: Bind on a connector that was already bound registers a second
    address and replaces both queues, so tasks still waiting are never completed; Dispose
    leaves the address registered, so later requests to it wait forever. The two-argument
    LocalStream constructor called at AcceptConnection and RequestConnection is not part of
    this model; both ends are plain LocalStreams. */
module LocalStreamConnector {
  import opened Wrappers
  import LocalStream

  datatype Queues = Queues(requests: seq<nat>, accepts: seq<nat>)

  /** Before Bind the queues do not exist. */
  datatype Connector = Connector(queues: Option<Queues>, disposed: bool)

  datatype Net = Net(registry: map<string, nat>, connectors: seq<Connector>)

  /** A task completion: a pairing of an accept with a request, or a failure with
      ObjectDisposedException. */
  datatype Event = Paired(accept: nat, request: nat) | Failed(task: nat)

  /** Every registered address names a connector, and that connector has its queues. */
  predicate Valid(n: Net) {
    forall a :: a in n.registry ==>
      n.registry[a] < |n.connectors| && n.connectors[n.registry[a]].queues.Some?
  }

  /** Requests and accepts never wait at the same connector. */
  predicate Settled(n: Net) {
    forall i :: 0 <= i < |n.connectors| && n.connectors[i].queues.Some? ==>
      n.connectors[i].queues.value.requests == [] || n.connectors[i].queues.value.accepts == []
  }

  /** A new connector: unbound, live. */
  function Create(): (c: Connector)
    ensures c.queues.None? && !c.disposed
  {
    Connector(None, false)
  }

  /** The two ends a pairing hands out: the accepter's stream at position 0, the requester's
      at position 1, each connected to the other, nothing pending. */
  function Ends(): (w: LocalStream.World)
    ensures |w| == 2 && LocalStream.Linked(w)
    ensures w[0].contact == Some(1) && w[1].contact == Some(0)
    ensures w[0].pending == w[1].pending == [] && w[0].readers == w[1].readers == []
  {
    var w := [LocalStream.Create(), LocalStream.Create()];
    LocalStream.Connect(LocalStream.Connect(w, 0, 1), 1, 0)
  }

  /** Bind: ObjectDisposedException after Dispose; an address already registered (by any
      connector) is refused by the registry; otherwise the address maps to this connector,
      whose queues start empty. */
  function Bind(n: Net, i: nat, address: string): (r: Result<Net>)
    requires i < |n.connectors|
    ensures n.connectors[i].disposed ==> r == Err(ObjectDisposed)
    ensures !n.connectors[i].disposed ==> (r.Err? <==> address in n.registry)
    ensures r.Err? ==> r.error in {ObjectDisposed, AddressInUse}
    ensures r.Ok? ==>
      && r.value.registry == n.registry[address := i]
      && r.value.connectors == n.connectors[i := Connector(Some(Queues([], [])), false)]
    ensures r.Ok? ==> Valid(n) ==> Valid(r.value)
    ensures r.Ok? ==> Settled(n) ==> Settled(r.value)
  {
    if n.connectors[i].disposed then Err(ObjectDisposed)
    else if address in n.registry then Err(AddressInUse)
    else Ok(Net(n.registry[address := i], n.connectors[i := Connector(Some(Queues([], [])), false)]))
  }

  /** AcceptConnection: with a request waiting, the oldest request is paired with this accept
      at once; otherwise the accept waits at the back of the queue. Before Bind there is no
      queue to look at (NullReferenceException). */
  function AcceptConnection(n: Net, i: nat, task: nat): (r: Result<(Net, seq<Event>)>)
    requires i < |n.connectors|
    ensures r.Err? <==> n.connectors[i].disposed || n.connectors[i].queues.None?
    ensures r.Err? ==> r.error == (if n.connectors[i].disposed then ObjectDisposed else NullReference)
    ensures r.Ok? ==>
      var q := n.connectors[i].queues.value;
      var (n', events) := r.value;
      && n'.registry == n.registry && |n'.connectors| == |n.connectors|
      && (forall k :: 0 <= k < |n.connectors| && k != i ==> n'.connectors[k] == n.connectors[k])
      && (q.requests != [] ==>
            events == [Paired(task, q.requests[0])]
            && n'.connectors[i].queues == Some(q.(requests := q.requests[1..])))
      && (q.requests == [] ==>
            events == [] && n'.connectors[i].queues == Some(q.(accepts := q.accepts + [task])))
    ensures r.Ok? ==> Valid(n) ==> Valid(r.value.0)
    ensures r.Ok? ==> Settled(n) ==> Settled(r.value.0)
  {
    var c := n.connectors[i];
    if c.disposed then Err(ObjectDisposed)
    else
      match c.queues
      case None => Err(NullReference)
      case Some(q) =>
        if |q.requests| > 0 then
          Ok((n.(connectors := n.connectors[i := c.(queues := Some(q.(requests := q.requests[1..])))]),
              [Paired(task, q.requests[0])]))
        else
          Ok((n.(connectors := n.connectors[i := c.(queues := Some(q.(accepts := q.accepts + [task])))]), []))
  }

  /** RequestConnection: ObjectDisposedException if this connector is disposed; an address
      nobody bound throws; otherwise the request pairs with the target's oldest waiting
      accept, or waits at the back of the target's request queue. */
  function RequestConnection(n: Net, i: nat, address: string, task: nat): (r: Result<(Net, seq<Event>)>)
    requires i < |n.connectors| && Valid(n)
    ensures n.connectors[i].disposed ==> r == Err(ObjectDisposed)
    ensures !n.connectors[i].disposed ==> (r.Err? <==> address !in n.registry)
    ensures r.Err? ==> r.error in {ObjectDisposed, AddressNotBound}
    ensures r.Ok? ==>
      var t := n.registry[address];
      var q := n.connectors[t].queues.value;
      var (n', events) := r.value;
      && n'.registry == n.registry && |n'.connectors| == |n.connectors|
      && (forall k :: 0 <= k < |n.connectors| && k != t ==> n'.connectors[k] == n.connectors[k])
      && (q.accepts != [] ==>
            events == [Paired(q.accepts[0], task)]
            && n'.connectors[t].queues == Some(q.(accepts := q.accepts[1..])))
      && (q.accepts == [] ==>
            events == [] && n'.connectors[t].queues == Some(q.(requests := q.requests + [task])))
    ensures r.Ok? ==> Valid(r.value.0)
    ensures r.Ok? ==> Settled(n) ==> Settled(r.value.0)
  {
    if n.connectors[i].disposed then Err(ObjectDisposed)
    else if address !in n.registry then Err(AddressNotBound)
    else
      var t := n.registry[address];
      var c := n.connectors[t];
      var q := c.queues.value;
      if |q.accepts| > 0 then
        Ok((n.(connectors := n.connectors[t := c.(queues := Some(q.(accepts := q.accepts[1..])))]),
            [Paired(q.accepts[0], task)]))
      else
        Ok((n.(connectors := n.connectors[t := c.(queues := Some(q.(requests := q.requests + [task])))]), []))
  }

  /** The failures for a queue of tasks, oldest first. */
  function FailAll(tasks: seq<nat>): (events: seq<Event>)
    ensures |events| == |tasks|
    ensures forall k :: 0 <= k < |tasks| ==> events[k] == Failed(tasks[k])
  {
    seq(|tasks|, k requires 0 <= k < |tasks| => Failed(tasks[k]))
  }

  /** Dispose: every waiting accept, then every waiting request, fails with
      ObjectDisposedException and leaves its queue; a second call does nothing. */
  function Dispose(n: Net, i: nat): (r: (Net, seq<Event>))
    requires i < |n.connectors|
    ensures r.0.registry == n.registry && |r.0.connectors| == |n.connectors| && r.0.connectors[i].disposed
    ensures forall k :: 0 <= k < |n.connectors| && k != i ==> r.0.connectors[k] == n.connectors[k]
    ensures n.connectors[i].disposed ==> r == (n, [])
    ensures !n.connectors[i].disposed && n.connectors[i].queues.Some? ==>
      var q := n.connectors[i].queues.value;
      && r.0.connectors[i].queues == Some(Queues([], []))
      && r.1 == FailAll(q.accepts) + FailAll(q.requests)
    ensures Valid(n) ==> Valid(r.0)
    ensures Settled(n) ==> Settled(r.0)
  {
    var c := n.connectors[i];
    if c.disposed then (n, [])
    else
      match c.queues
      case None => (n.(connectors := n.connectors[i := c.(disposed := true)]), [])
      case Some(q) =>
        (n.(connectors := n.connectors[i := Connector(Some(Queues([], [])), true)]),
         FailAll(q.accepts) + FailAll(q.requests))
  }

  /** After Dispose every call on that connector refuses. */
  lemma DisposedRefuses(n: Net, i: nat, address: string, task: nat)
    requires i < |n.connectors| && Valid(n)
    ensures var n' := Dispose(n, i).0;
            && Bind(n', i, address) == Err(ObjectDisposed)
            && AcceptConnection(n', i, task) == Err(ObjectDisposed)
            && RequestConnection(n', i, address, task) == Err(ObjectDisposed)
  {
  }

  /** Rendezvous in either order: a request to a freshly bound address pairs with the accept
      made there, whether the accept came first or the request did. */
  lemma RendezvousEitherOrder(n: Net, server: nat, client: nat, address: string, a: nat, q: nat)
    requires server < |n.connectors| && client < |n.connectors| && Valid(n)
    requires !n.connectors[server].disposed && !n.connectors[client].disposed
    requires address !in n.registry
    ensures var b := Bind(n, server, address).value;
            var (n1, e1) := AcceptConnection(b, server, a).value;
            var (n2, e2) := RequestConnection(n1, client, address, q).value;
            e1 == [] && e2 == [Paired(a, q)]
    ensures var b := Bind(n, server, address).value;
            var (n1, e1) := RequestConnection(b, client, address, q).value;
            var (n2, e2) := AcceptConnection(n1, server, a).value;
            e1 == [] && e2 == [Paired(a, q)]
  {
    var b := Bind(n, server, address).value;
    assert b.registry[address] == server;
  }
}
