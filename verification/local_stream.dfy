/** LocalStream: an in-memory byte stream between two ends. Each end holds the bytes that
    have arrived for it and a queue of readers, each waiting for a fixed number of bytes.
    Readers are served strictly in arrival order, and only while the reader at the front can
    be served in full: a large reader at the front blocks the smaller ones behind it.

    The ends live in a `World`, a sequence of streams addressed by position; an end's contact
    is the position of the stream it writes to. A task completion is a `Delivery` naming the
    reader served. Each call is one atomic step: the Task.Run that Write starts and the locks it
    takes are not modelled. */
module LocalStream {
  import opened Wrappers
  import opened Bytes

  datatype Reader = Reader(id: nat, size: nat)

  datatype Delivery = Delivery(id: nat, data: Bytes)

  datatype Stream = Stream(contact: Option<nat>, pending: Bytes, readers: seq<Reader>)

  type World = seq<Stream>

  /** Every contact names a stream of the world. */
  predicate Linked(w: World) {
    forall i :: 0 <= i < |w| && w[i].contact.Some? ==> w[i].contact.value < |w|
  }

  /** The bytes handed out by a sequence of deliveries, in order. */
  function Concat(deliveries: seq<Delivery>): (r: Bytes)
    decreases |deliveries|
  {
    if |deliveries| == 0 then [] else deliveries[0].data + Concat(deliveries[1..])
  }

  lemma {:induction false} ConcatAppend(a: seq<Delivery>, b: seq<Delivery>)
    ensures Concat(a + b) == Concat(a) + Concat(b)
    decreases |a|
  {
    if |a| == 0 {
      assert a + b == b;
    } else {
      assert (a + b)[1..] == a[1..] + b;
      ConcatAppend(a[1..], b);
      assert Concat(a + b) == a[0].data + Concat(a[1..] + b);
    }
  }

  /** What one round of matching leaves: the bytes and readers still pending, and the
      deliveries made, in order. */
  datatype Served = Served(pending: Bytes, readers: seq<Reader>, deliveries: seq<Delivery>)

  /** HandlePendingReaders: while a reader is waiting and the bytes pending cover the front
      reader's size, that reader takes the oldest `size` bytes. */
  function Serve(pending: Bytes, readers: seq<Reader>): (r: Served)
    ensures |r.deliveries| <= |readers|
    decreases |readers|
  {
    if |readers| == 0 || readers[0].size > |pending| then Served(pending, readers, [])
    else
      var size := readers[0].size;
      var rest := Serve(pending[size..], readers[1..]);
      Served(rest.pending, rest.readers, [Delivery(readers[0].id, pending[..size])] + rest.deliveries)
  }

  /** Bytes are neither lost nor reordered: the bytes delivered, followed by the bytes still
      pending, are exactly the bytes that were pending. */
  lemma {:induction false} ServeConserves(pending: Bytes, readers: seq<Reader>)
    ensures var r := Serve(pending, readers);
            Concat(r.deliveries) + r.pending == pending
    decreases |readers|
  {
    if |readers| > 0 && readers[0].size <= |pending| {
      var size := readers[0].size;
      ServeConserves(pending[size..], readers[1..]);
      var r := Serve(pending, readers);
      assert r.deliveries[1..] == Serve(pending[size..], readers[1..]).deliveries;
      assert pending == pending[..size] + pending[size..];
    }
  }

  /** Readers are served first come, first served: the deliveries go to a prefix of the
      reader queue, each with exactly the size that reader asked for, and the rest of the
      queue is left as it was. */
  lemma {:induction false} ServeIsFifo(pending: Bytes, readers: seq<Reader>)
    ensures var r := Serve(pending, readers);
            && r.readers == readers[|r.deliveries|..]
            && forall k :: 0 <= k < |r.deliveries| ==>
                 r.deliveries[k].id == readers[k].id && |r.deliveries[k].data| == readers[k].size
    decreases |readers|
  {
    if |readers| > 0 && readers[0].size <= |pending| {
      var size := readers[0].size;
      ServeIsFifo(pending[size..], readers[1..]);
      var r := Serve(pending, readers);
      var t := Serve(pending[size..], readers[1..]);
      assert r.deliveries == [Delivery(readers[0].id, pending[..size])] + t.deliveries;
      forall k | 0 <= k < |r.deliveries|
        ensures r.deliveries[k].id == readers[k].id && |r.deliveries[k].data| == readers[k].size
      {
        if k > 0 {
          assert r.deliveries[k] == t.deliveries[k - 1];
        }
      }
    }
  }

  /** Matching stops only when it must: no reader is waiting, or the front reader wants more
      bytes than are pending. */
  lemma {:induction false} ServeIsMaximal(pending: Bytes, readers: seq<Reader>)
    ensures var r := Serve(pending, readers);
            r.readers == [] || r.readers[0].size > |r.pending|
    decreases |readers|
  {
    if |readers| > 0 && readers[0].size <= |pending| {
      ServeIsMaximal(pending[readers[0].size..], readers[1..]);
    }
  }

  /** A new stream: no contact, nothing pending. */
  function Create(): (st: Stream)
    ensures st.contact.None? && st.pending == [] && st.readers == []
  {
    Stream(None, [], [])
  }

  /** Connect: this end now writes to `j`; the other end is not touched. */
  function Connect(w: World, i: nat, j: nat): (w': World)
    requires i < |w| && j < |w| && Linked(w)
    ensures Linked(w') && |w'| == |w|
    ensures w'[i].contact == Some(j)
    ensures forall k :: 0 <= k < |w| && k != i ==> w'[k] == w[k]
    ensures w'[i].pending == w[i].pending && w'[i].readers == w[i].readers
  {
    w[i := w[i].(contact := Some(j))]
  }

  /** Disconnect: clears the contact's contact, then this end's; without a contact it does
      nothing. */
  function Disconnect(w: World, i: nat): (w': World)
    requires i < |w| && Linked(w)
    ensures Linked(w') && |w'| == |w|
    ensures w'[i].contact.None?
    ensures w[i].contact.Some? ==> w'[w[i].contact.value].contact.None?
    ensures forall k :: 0 <= k < |w| && Some(k) != w[i].contact && k != i ==> w'[k] == w[k]
    ensures forall k :: 0 <= k < |w| ==> w'[k].pending == w[k].pending && w'[k].readers == w[k].readers
  {
    match w[i].contact
    case None => w
    case Some(j) =>
      var w1 := w[j := w[j].(contact := None)];
      w1[i := w1[i].(contact := None)]
  }

  /** Write: StreamDisconnectedException without a contact; otherwise the blob's bytes are
      appended, in order, to the contact's pending bytes and the contact serves its readers. */
  function Write(w: World, i: nat, blob: Bytes): (r: Result<(World, seq<Delivery>)>)
    requires i < |w| && Linked(w)
    ensures r.Err? <==> w[i].contact.None?
    ensures r.Err? ==> r.error == StreamDisconnected
    ensures r.Ok? ==>
      var (w', delivered) := r.value;
      var j := w[i].contact.value;
      && Linked(w') && |w'| == |w|
      && forall k :: 0 <= k < |w| && k != j ==> w'[k] == w[k]
  {
    match w[i].contact
    case None => Err(StreamDisconnected)
    case Some(j) =>
      var s := Serve(w[j].pending + blob, w[j].readers);
      Ok((w[j := w[j].(pending := s.pending, readers := s.readers)], s.deliveries))
  }

  /** Read: the reader joins the back of this end's queue, then this end serves its
      readers. */
  function Read(w: World, i: nat, id: nat, size: nat): (r: (World, seq<Delivery>))
    requires i < |w| && Linked(w)
    ensures Linked(r.0) && |r.0| == |w|
    ensures forall k :: 0 <= k < |w| && k != i ==> r.0[k] == w[k]
    ensures r.0[i].contact == w[i].contact
  {
    var s := Serve(w[i].pending, w[i].readers + [Reader(id, size)]);
    (w[i := w[i].(pending := s.pending, readers := s.readers)], s.deliveries)
  }

  /** Write delivers the written bytes after those already pending: what the contact's readers
      receive, followed by what stays pending, is the old pending bytes followed by the blob;
      and afterwards the contact's front reader, if any, cannot yet be served. */
  lemma WriteConserves(w: World, i: nat, blob: Bytes)
    requires i < |w| && Linked(w) && w[i].contact.Some?
    ensures Write(w, i, blob).Ok?
    ensures var (w', delivered) := Write(w, i, blob).value;
            var j := w[i].contact.value;
            && Concat(delivered) + w'[j].pending == w[j].pending + blob
            && (w'[j].readers == [] || w'[j].readers[0].size > |w'[j].pending|)
  {
    var j := w[i].contact.value;
    ServeConserves(w[j].pending + blob, w[j].readers);
    ServeIsMaximal(w[j].pending + blob, w[j].readers);
  }

  /** Read never changes which bytes reach the reader: delivered then pending equals what was
      pending; the new reader is served only after every reader queued before it. */
  lemma ReadConserves(w: World, i: nat, id: nat, size: nat)
    requires i < |w| && Linked(w)
    ensures var (w', delivered) := Read(w, i, id, size);
            && Concat(delivered) + w'[i].pending == w[i].pending
            && (w'[i].readers == [] || w'[i].readers[0].size > |w'[i].pending|)
            && (w'[i].readers == [] ==>
                  |delivered| == |w[i].readers| + 1 && delivered[|w[i].readers|].id == id)
  {
    var queue := w[i].readers + [Reader(id, size)];
    ServeConserves(w[i].pending, queue);
    ServeIsMaximal(w[i].pending, queue);
    ServeIsFifo(w[i].pending, queue);
    var s := Serve(w[i].pending, queue);
    if |s.readers| == 0 {
      assert |s.deliveries| == |queue|;
      assert s.deliveries[|w[i].readers|].id == queue[|w[i].readers|].id == id;
    }
  }

  /** One end seen over time: bytes arrive and readers ask. */
  datatype Event = Arrive(blob: Bytes) | Ask(reader: Reader)

  /** One event: an arrival is followed by a round of matching, as in Write; a new reader
      joins the back of the queue before the round, as in Read. */
  function Step(pending: Bytes, readers: seq<Reader>, e: Event): (r: Served)
  {
    match e
    case Arrive(blob) => Serve(pending + blob, readers)
    case Ask(reader) => Serve(pending, readers + [reader])
  }

  /** The bytes an event brings. */
  function Brought(e: Event): Bytes {
    if e.Arrive? then e.blob else []
  }

  lemma StepConserves(pending: Bytes, readers: seq<Reader>, e: Event)
    ensures Concat(Step(pending, readers, e).deliveries) + Step(pending, readers, e).pending == pending + Brought(e)
  {
    match e {
      case Arrive(blob) => ServeConserves(pending + blob, readers);
      case Ask(reader) => ServeConserves(pending, readers + [reader]);
    }
  }

  /** The state of one end after a sequence of events, with every delivery made. */
  function Run(pending: Bytes, readers: seq<Reader>, events: seq<Event>): (r: Served)
    decreases |events|
  {
    if |events| == 0 then Served(pending, readers, [])
    else
      var s := Step(pending, readers, events[0]);
      var rest := Run(s.pending, s.readers, events[1..]);
      Served(rest.pending, rest.readers, s.deliveries + rest.deliveries)
  }

  /** The bytes that arrive over a sequence of events, in order. */
  function Arrived(events: seq<Event>): (r: Bytes)
    decreases |events|
  {
    if |events| == 0 then [] else Brought(events[0]) + Arrived(events[1..])
  }

  /** Stream order: over any interleaving of writes and reads, the bytes handed to readers,
      followed by the bytes still pending, are the bytes that were pending followed by every
      byte written, in order. */
  lemma {:induction false} RunConserves(pending: Bytes, readers: seq<Reader>, events: seq<Event>)
    ensures Concat(Run(pending, readers, events).deliveries) + Run(pending, readers, events).pending
         == pending + Arrived(events)
    decreases |events|
  {
    if |events| > 0 {
      var s := Step(pending, readers, events[0]);
      StepConserves(pending, readers, events[0]);
      RunConserves(s.pending, s.readers, events[1..]);
      var rest := Run(s.pending, s.readers, events[1..]);
      ConcatAppend(s.deliveries, rest.deliveries);
      ConcatRegroup(Concat(s.deliveries), Concat(rest.deliveries), rest.pending,
                    s.pending, pending, Brought(events[0]), Arrived(events[1..]));
    }
  }
}
