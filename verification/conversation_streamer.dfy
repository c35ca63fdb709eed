/** ConversationStreamer: frames messages over a byte stream and refuses every call once
    disposed. `Send` yields the bytes it writes; `Receive` is a receive on the bytes that have
    arrived. Disposing also disposes the underlying stream, which is not part of this model. */
module ConversationStreamer {
  import opened Wrappers
  import opened Bytes
  import Framing

  datatype Streamer = Streamer(disposed: bool)

  function Create(): (st: Streamer)
    ensures !st.disposed
  {
    Streamer(false)
  }

  /** Send: ObjectDisposedException, then the size check, then the frame's bytes. */
  function Send(st: Streamer, data: Bytes): (r: Result<Bytes>)
    ensures st.disposed ==> r == Err(ObjectDisposed)
    ensures !st.disposed ==> r == Framing.Encode(data)
    ensures r.Ok? ==> |data| <= Framing.MaxSize && |r.value| == Framing.HeaderSize + |data|
  {
    if st.disposed then Err(ObjectDisposed) else Framing.Encode(data)
  }

  /** Receive: ObjectDisposedException before anything is read, otherwise one frame. */
  function Receive(st: Streamer, stream: Bytes): (r: Framing.Outcome)
    ensures st.disposed ==> r == Framing.Outcome.Refused(ObjectDisposed, stream)
    ensures !st.disposed ==> r == Framing.Decode(stream)
  {
    if st.disposed then Framing.Outcome.Refused(ObjectDisposed, stream) else Framing.Decode(stream)
  }

  /** Dispose: sets the flag; a second call does nothing. */
  function Dispose(st: Streamer): (st': Streamer)
    ensures st'.disposed
    ensures st.disposed ==> st' == st
  {
    Streamer(true)
  }

  /** Two live streamers joined by a stream: whatever one sends the other receives unchanged,
      consuming exactly the frame. */
  lemma SendReceive(sender: Streamer, receiver: Streamer, data: Bytes, more: Bytes)
    requires !sender.disposed && !receiver.disposed && |data| <= Framing.MaxSize
    ensures Send(sender, data).Ok?
    ensures Receive(receiver, Send(sender, data).value + more) == Framing.Outcome.Received(data, more)
  {
    Framing.DecodeEncode(data, more);
  }

  /** After Dispose, Send and Receive throw ObjectDisposedException; Dispose is idempotent. */
  lemma DisposedRefuses(st: Streamer, data: Bytes, stream: Bytes)
    ensures Send(Dispose(st), data) == Err(ObjectDisposed)
    ensures Receive(Dispose(st), stream).Refused? && Receive(Dispose(st), stream).error == ObjectDisposed
    ensures Dispose(Dispose(st)) == Dispose(st)
  {
  }
}
