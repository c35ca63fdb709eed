/** The length-prefixed frame shared by ConversationStreamer and StreamMessenger: the length
    as BitConverter's four little-endian bytes, then the payload; neither side accepts a
    payload longer than 1000 bytes.

    The stream is the sequence of bytes that has arrived and not yet been read. Receiving
    reads four bytes and then `length` more; when the stream does not yet hold them the read
    is still pending. */
module Framing {
  import opened Wrappers
  import opened Bytes

  /** MaxSize in ConversationStreamer, MaxBuffer in StreamMessenger. */
  const MaxSize: nat := 1000

  const HeaderSize: nat := 4

  /** What one receive does to the stream. */
  datatype Outcome =
    | Pending                              // the bytes it needs have not all arrived
    | Refused(error: Error, rest: Bytes)   // the length was read, then the receive threw
    | Received(data: Bytes, rest: Bytes)   // a whole frame was read

  /** The bytes Send writes, or MessageTooLargeException before anything is written. */
  function Encode(data: Bytes): (r: Result<Bytes>)
    ensures r.Err? <==> |data| > MaxSize
    ensures r.Err? ==> r.error == MessageTooLarge
    ensures r.Ok? ==> |r.value| == HeaderSize + |data| && r.value[HeaderSize..] == data
    ensures r.Ok? ==> Int32Value(r.value[..HeaderSize]) == |data|
  {
    if |data| > MaxSize then Err(MessageTooLarge)
    else
      Int32RoundTrip(|data|);
      assert (Int32Bytes(|data|) + data)[..HeaderSize] == Int32Bytes(|data|);
      Ok(Int32Bytes(|data|) + data)
  }

  /** Receive: the length first; a length over MaxSize throws MessageTooLargeException before
      any payload is read. A negative length passes that check and reaches Read(length),
      whose `new byte[length]` throws OverflowException. */
  function Decode(stream: Bytes): (r: Outcome)
    ensures r.Refused? ==> |stream| >= HeaderSize && r.rest == stream[HeaderSize..]
    ensures r.Received? ==> |r.data| <= MaxSize
    ensures r.Received? ==> stream == Int32Bytes(|r.data|) + r.data + r.rest
  {
    if |stream| < HeaderSize then Pending
    else
      var length := Int32Value(stream[..HeaderSize]);
      var rest := stream[HeaderSize..];
      if length > MaxSize then Refused(MessageTooLarge, rest)
      else if length < 0 then Refused(Argument, rest)
      else if |rest| < length then Pending
      else
        Int32Canonical(stream[..HeaderSize]);
        assert stream == stream[..HeaderSize] + rest[..length] + rest[length..];
        Received(rest[..length], rest[length..])
  }

  /** The length check: a header announcing more than MaxSize bytes is refused whatever
      follows it, and nothing of the payload is consumed. */
  lemma OversizeRefused(header: Bytes, more: Bytes)
    requires |header| == HeaderSize && Int32Value(header) > MaxSize
    ensures Decode(header + more) == Refused(MessageTooLarge, more)
  {
    assert (header + more)[..HeaderSize] == header;
    assert (header + more)[HeaderSize..] == more;
  }

  /** Round trip: what Send writes, followed by anything else, is received as exactly `data`,
      consuming 4 + |data| bytes. */
  lemma DecodeEncode(data: Bytes, more: Bytes)
    requires |data| <= MaxSize
    ensures Encode(data).Ok?
    ensures Decode(Encode(data).value + more) == Received(data, more)
  {
    var stream := Encode(data).value + more;
    assert stream[..HeaderSize] == Encode(data).value[..HeaderSize];
    assert stream[HeaderSize..] == data + more;
    assert (data + more)[..|data|] == data;
    assert (data + more)[|data|..] == more;
  }

  /** A frame is received only once all of it has arrived: a proper prefix of an encoded
      frame leaves the receive pending. */
  lemma PrefixPending(data: Bytes, n: nat)
    requires |data| <= MaxSize && n < HeaderSize + |data|
    ensures Decode(Encode(data).value[..n]) == Pending
  {
    var stream := Encode(data).value[..n];
    if n >= HeaderSize {
      assert stream[..HeaderSize] == Encode(data).value[..HeaderSize];
    }
  }

  /** The bytes of a sequence of Sends, in order. */
  function EncodeAll(messages: seq<Bytes>): (r: Result<Bytes>)
    ensures r.Err? <==> exists k :: 0 <= k < |messages| && |messages[k]| > MaxSize
  {
    if |messages| == 0 then Ok([])
    else
      match Encode(messages[0])
      case Err(e) => Err(e)
      case Ok(frame) =>
        match EncodeAll(messages[1..])
        case Err(e) =>
          ghost var k :| 0 <= k < |messages[1..]| && |messages[1..][k]| > MaxSize;
          assert |messages[k + 1]| > MaxSize;
          Err(e)
        case Ok(tail) =>
          assert forall k :: 1 <= k < |messages| ==> messages[k] == messages[1..][k - 1];
          Ok(frame + tail)
  }

  /** Repeated receives until one is pending or refused: the frames read, then what stopped
      the reading. */
  function DecodeAll(stream: Bytes): (r: (seq<Bytes>, Outcome))
    ensures r.1.Pending? || r.1.Refused?
    decreases |stream|
  {
    match Decode(stream)
    case Received(data, rest) =>
      var (frames, last) := DecodeAll(rest);
      ([data] + frames, last)
    case other => ([], other)
  }

  /** Sending a non-empty sequence writes the first frame, then the frames of the rest. */
  lemma EncodeAllCons(messages: seq<Bytes>)
    requires |messages| > 0 && EncodeAll(messages).Ok?
    ensures Encode(messages[0]).Ok? && EncodeAll(messages[1..]).Ok?
    ensures EncodeAll(messages).value == Encode(messages[0]).value + EncodeAll(messages[1..]).value
  {
  }

  /** Receiving from a whole frame followed by more bytes reads that frame, then goes on. */
  lemma DecodeAllCons(data: Bytes, more: Bytes)
    requires |data| <= MaxSize
    ensures Encode(data).Ok?
    ensures DecodeAll(Encode(data).value + more) == ([data] + DecodeAll(more).0, DecodeAll(more).1)
  {
    DecodeEncode(data, more);
  }

  /** Frames arrive in the order they were sent: receiving from the bytes of any sequence of
      Sends yields those messages, in order, and leaves the next receive pending. */
  lemma {:induction false} DecodeAllEncodeAll(messages: seq<Bytes>)
    requires forall k :: 0 <= k < |messages| ==> |messages[k]| <= MaxSize
    ensures EncodeAll(messages).Ok?
    ensures DecodeAll(EncodeAll(messages).value) == (messages, Pending)
    decreases |messages|
  {
    if |messages| > 0 {
      var tail := messages[1..];
      forall k | 0 <= k < |tail|
        ensures |tail[k]| <= MaxSize
      {
        assert tail[k] == messages[k + 1];
      }
      DecodeAllEncodeAll(tail);
      EncodeAllCons(messages);
      DecodeAllCons(messages[0], EncodeAll(tail).value);
      assert [messages[0]] + tail == messages;
    }
  }
}
