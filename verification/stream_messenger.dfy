/** StreamMessenger: the same framing as ConversationStreamer, without a disposed state, and an
    Establish that has nothing to do. */
module StreamMessenger {
  import opened Wrappers
  import opened Bytes
  import Framing

  datatype Messenger = Messenger

  /** Send: the size check before anything is written, then the frame's bytes. */
  function Send(m: Messenger, data: Bytes): (r: Result<Bytes>)
    ensures r.Err? <==> |data| > Framing.MaxSize
    ensures r.Err? ==> r.error == MessageTooLarge
    ensures r.Ok? ==> r.value == Int32Bytes(|data|) + data
  {
    match Framing.Encode(data)
    case Err(e) => Err(e)
    case Ok(frame) =>
      Int32Canonical(frame[..Framing.HeaderSize]);
      assert frame == frame[..Framing.HeaderSize] + frame[Framing.HeaderSize..];
      Ok(frame)
  }

  /** Receive: one frame from the bytes that have arrived. */
  function Receive(m: Messenger, stream: Bytes): (r: Framing.Outcome)
    ensures r.Received? ==> |r.data| <= Framing.MaxSize
    ensures r.Received? ==> stream == Int32Bytes(|r.data|) + r.data + r.rest
  {
    Framing.Decode(stream)
  }

  /** Round trip: Receive after Send gives the data back, for every payload within the limit. */
  lemma ReceiveSend(m: Messenger, data: Bytes, more: Bytes)
    requires |data| <= Framing.MaxSize
    ensures Send(m, data).Ok?
    ensures Receive(m, Send(m, data).value + more) == Framing.Outcome.Received(data, more)
  {
    Framing.DecodeEncode(data, more);
  }
}
