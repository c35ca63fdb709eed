/** LocalConversation: an in-memory message channel. Sending appends the message to the
    contact's queue and runs the contact's matching; receiving adds a reader to this end's
    queue and runs this end's matching. Ends live in a `World` addressed by position, and a
    contact is a position; no contact means a null reference. */
module LocalConversation {
  import opened Wrappers
  import opened Bytes
  import Mailbox

  datatype Peer = Peer(contact: Option<nat>, box: Mailbox.Box)

  type World = seq<Peer>

  predicate Linked(w: World) {
    forall i :: 0 <= i < |w| && w[i].contact.Some? ==> w[i].contact.value < |w|
  }

  /** The constructor: both queues empty, no contact. */
  function Create(): (p: Peer)
    ensures p.contact.None? && p.box.messages == [] && p.box.readers == []
  {
    Peer(None, Mailbox.Box([], []))
  }

  /** Connect: this end now sends to `j`. */
  function Connect(w: World, i: nat, j: nat): (w': World)
    requires i < |w| && j < |w| && Linked(w)
    ensures Linked(w') && |w'| == |w|
    ensures w'[i] == w[i].(contact := Some(j))
    ensures forall k :: 0 <= k < |w| && k != i ==> w'[k] == w[k]
  {
    w[i := w[i].(contact := Some(j))]
  }

  /** Send: NullReferenceException without a contact; otherwise the message joins the back of
      the contact's queue and the contact matches. The returned task is already complete. */
  function Send(w: World, i: nat, data: Bytes): (r: Result<(World, seq<Mailbox.Delivery>)>)
    requires i < |w| && Linked(w)
    ensures r.Err? <==> w[i].contact.None?
    ensures r.Err? ==> r.error == NullReference
    ensures r.Ok? ==>
      var j := w[i].contact.value;
      var (w', delivered) := r.value;
      && Linked(w') && |w'| == |w|
      && (forall k :: 0 <= k < |w| && k != j ==> w'[k] == w[k])
      && Mailbox.Messages(delivered) + w'[j].box.messages == w[j].box.messages + [data]
      && (w'[j].box.messages == [] || w'[j].box.readers == [])
  {
    match w[i].contact
    case None => Err(NullReference)
    case Some(j) =>
      var m := Mailbox.Step(w[j].box, Mailbox.Arrive(data));
      Mailbox.StepConserves(w[j].box, Mailbox.Arrive(data));
      Mailbox.MatchPairsOldest(w[j].box.(messages := w[j].box.messages + [data]));
      Ok((w[j := w[j].(box := m.box)], m.deliveries))
  }

  /** Receive: a reader joins the back of this end's queue and this end matches; the reader's
      task completes now if a message was waiting for it. */
  function Receive(w: World, i: nat, reader: nat): (r: (World, seq<Mailbox.Delivery>))
    requires i < |w| && Linked(w)
    ensures Linked(r.0) && |r.0| == |w|
    ensures forall k :: 0 <= k < |w| && k != i ==> r.0[k] == w[k]
    ensures Mailbox.Messages(r.1) + r.0[i].box.messages == w[i].box.messages
    ensures r.0[i].box.messages == [] || r.0[i].box.readers == []
    ensures w[i].box.readers == [] && w[i].box.messages != [] ==>
              r.1 == [Mailbox.Delivery(reader, w[i].box.messages[0])]
  {
    var m := Mailbox.Step(w[i].box, Mailbox.Ask(reader));
    Mailbox.StepConserves(w[i].box, Mailbox.Ask(reader));
    Mailbox.MatchPairsOldest(w[i].box.(readers := w[i].box.readers + [reader]));
    (w[i := w[i].(box := m.box)], m.deliveries)
  }
}
