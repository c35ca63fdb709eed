/** LocalMessenger: the same in-memory channel as LocalConversation, with an Establish that
    has nothing to do. */
module LocalMessenger {
  import opened Wrappers
  import opened Bytes
  import Mailbox
  import LocalConversation

  type World = LocalConversation.World

  /** Establish: completes at once; the world is unchanged. */
  function Establish(w: World): (w': World)
    ensures w' == w
  {
    w
  }

  /** Send: the message joins the back of the contact's queue, which then matches; without a
      contact, NullReferenceException. */
  function Send(w: World, i: nat, data: Bytes): (r: Result<(World, seq<Mailbox.Delivery>)>)
    requires i < |w| && LocalConversation.Linked(w)
    ensures r.Err? <==> w[i].contact.None?
    ensures r.Err? ==> r.error == NullReference
    ensures r.Ok? ==>
      var j := w[i].contact.value;
      var (w', delivered) := r.value;
      && LocalConversation.Linked(w') && |w'| == |w|
      && (forall k :: 0 <= k < |w| && k != j ==> w'[k] == w[k])
      && Mailbox.Messages(delivered) + w'[j].box.messages == w[j].box.messages + [data]
  {
    LocalConversation.Send(w, i, data)
  }

  /** Receive: a reader joins the back of this end's queue, which then matches. */
  function Receive(w: World, i: nat, reader: nat): (r: (World, seq<Mailbox.Delivery>))
    requires i < |w| && LocalConversation.Linked(w)
    ensures |r.0| == |w| && forall k :: 0 <= k < |w| && k != i ==> r.0[k] == w[k]
    ensures Mailbox.Messages(r.1) + r.0[i].box.messages == w[i].box.messages
    ensures r.0[i].box.messages == [] || r.0[i].box.readers == []
  {
    LocalConversation.Receive(w, i, reader)
  }

  /** Two connected messengers: each message one sends is received by the other's oldest
      waiting reader, unchanged, when a reader is waiting. */
  lemma SendReachesWaitingReader(w: World, i: nat, j: nat, data: Bytes)
    requires i < |w| && j < |w| && LocalConversation.Linked(w)
    requires w[i].contact == Some(j) && w[j].box.readers != [] && w[j].box.messages == []
    ensures Send(w, i, data).Ok?
    ensures Send(w, i, data).value.1 == [Mailbox.Delivery(w[j].box.readers[0], data)]
    ensures Send(w, i, data).value.0[j].box.readers == w[j].box.readers[1..]
  {
    var b := w[j].box.(messages := [data]);
    assert w[j].box.(messages := w[j].box.messages + [data]) == b;
    Mailbox.MatchPairsOldest(b);
  }
}
