/** The message queue and reader queue that LocalConversation and LocalMessenger both keep,
    and the matching loop they share: while a message and a reader are both waiting, the
    oldest reader receives the oldest message. */
module Mailbox {
  import opened Bytes

  /** A reader's task completes with a message. */
  datatype Delivery = Delivery(reader: nat, message: Bytes)

  datatype Box = Box(messages: seq<Bytes>, readers: seq<nat>)

  datatype Matched = Matched(box: Box, deliveries: seq<Delivery>)

  /** HandlePendingReaders / HandleInputOperations. */
  function Match(b: Box): (r: Matched)
    ensures |r.deliveries| <= |b.messages| && |r.deliveries| <= |b.readers|
    decreases |b.readers|
  {
    if |b.messages| == 0 || |b.readers| == 0 then Matched(b, [])
    else
      var rest := Match(Box(b.messages[1..], b.readers[1..]));
      Matched(rest.box, [Delivery(b.readers[0], b.messages[0])] + rest.deliveries)
  }

  function Min(x: nat, y: nat): nat {
    if x < y then x else y
  }

  /** The matching in closed form: as many pairs as the shorter queue allows; pair k joins the
      k-th oldest reader with the k-th oldest message, unmodified; both queues lose exactly
      their matched front. Hence afterwards at least one queue is empty. */
  lemma {:induction false} MatchPairsOldest(b: Box)
    ensures var r := Match(b);
            var n := Min(|b.messages|, |b.readers|);
            && |r.deliveries| == n
            && (forall k :: 0 <= k < n ==> r.deliveries[k] == Delivery(b.readers[k], b.messages[k]))
            && r.box == Box(b.messages[n..], b.readers[n..])
            && (r.box.messages == [] || r.box.readers == [])
    decreases |b.readers|
  {
    if |b.messages| > 0 && |b.readers| > 0 {
      var t := Box(b.messages[1..], b.readers[1..]);
      MatchPairsOldest(t);
      var r := Match(b);
      var n := Min(|b.messages|, |b.readers|);
      assert r.deliveries == [Delivery(b.readers[0], b.messages[0])] + Match(t).deliveries;
      forall k | 0 <= k < n
        ensures r.deliveries[k] == Delivery(b.readers[k], b.messages[k])
      {
        if k > 0 {
          assert r.deliveries[k] == Match(t).deliveries[k - 1];
        }
      }
      assert b.messages[1..][n - 1..] == b.messages[n..];
      assert b.readers[1..][n - 1..] == b.readers[n..];
    }
  }

  /** The messages handed out by a sequence of deliveries, in order. */
  function Messages(ds: seq<Delivery>): (r: seq<Bytes>)
    ensures |r| == |ds|
    ensures forall k :: 0 <= k < |ds| ==> r[k] == ds[k].message
  {
    seq(|ds|, k requires 0 <= k < |ds| => ds[k].message)
  }

  /** The messages of two runs of deliveries are the messages of each, in order. */
  lemma MessagesAppend(a: seq<Delivery>, b: seq<Delivery>)
    ensures Messages(a + b) == Messages(a) + Messages(b)
  {
    forall k | 0 <= k < |a| + |b|
      ensures Messages(a + b)[k] == (Messages(a) + Messages(b))[k]
    {
      if k < |a| {
        assert (a + b)[k] == a[k];
      } else {
        assert (a + b)[k] == b[k - |a|];
      }
    }
  }

  /** Matching hands out messages in queue order and keeps the rest: the messages delivered,
      followed by those still queued, are the messages that were queued. */
  lemma {:induction false} MatchConserves(b: Box)
    ensures Messages(Match(b).deliveries) + Match(b).box.messages == b.messages
    decreases |b.readers|
  {
    if |b.messages| > 0 && |b.readers| > 0 {
      var t := Box(b.messages[1..], b.readers[1..]);
      MatchConserves(t);
      var rest := Match(t);
      var first := Delivery(b.readers[0], b.messages[0]);
      MessagesAppend([first], rest.deliveries);
      assert Messages([first]) == [b.messages[0]];
      calc {
        Messages(Match(b).deliveries) + Match(b).box.messages;
        Messages([first] + rest.deliveries) + rest.box.messages;
        [b.messages[0]] + (Messages(rest.deliveries) + rest.box.messages);
        [b.messages[0]] + b.messages[1..];
        b.messages;
      }
    }
  }

  /** What happens at one end: a message arrives (the contact's Send) or a reader is added
      (this end's Receive); either is followed by a round of matching. */
  datatype Event = Arrive(message: Bytes) | Ask(reader: nat)

  function Step(b: Box, e: Event): (r: Matched)
  {
    match e
    case Arrive(m) => Match(b.(messages := b.messages + [m]))
    case Ask(id) => Match(b.(readers := b.readers + [id]))
  }

  function Run(b: Box, events: seq<Event>): (r: Matched)
    decreases |events|
  {
    if |events| == 0 then Matched(b, [])
    else
      var s := Step(b, events[0]);
      var rest := Run(s.box, events[1..]);
      Matched(rest.box, s.deliveries + rest.deliveries)
  }

  /** The messages that arrive over a sequence of events, in order. */
  function Sent(events: seq<Event>): (r: seq<Bytes>)
    decreases |events|
  {
    if |events| == 0 then []
    else (if events[0].Arrive? then [events[0].message] else []) + Sent(events[1..])
  }

  lemma StepConserves(b: Box, e: Event)
    ensures Messages(Step(b, e).deliveries) + Step(b, e).box.messages
         == b.messages + (if e.Arrive? then [e.message] else [])
  {
    match e {
      case Arrive(m) => MatchConserves(b.(messages := b.messages + [m]));
      case Ask(id) => MatchConserves(b.(readers := b.readers + [id]));
    }
  }

  /** Messages are delivered in send order: over any interleaving of sends and receives, the
      messages readers receive, followed by those still queued, are the queued messages
      followed by every message sent, in order. */
  lemma {:induction false} RunConserves(b: Box, events: seq<Event>)
    ensures Messages(Run(b, events).deliveries) + Run(b, events).box.messages == b.messages + Sent(events)
    decreases |events|
  {
    if |events| > 0 {
      var s := Step(b, events[0]);
      StepConserves(b, events[0]);
      RunConserves(s.box, events[1..]);
      var rest := Run(s.box, events[1..]);
      MessagesAppend(s.deliveries, rest.deliveries);
      var head := if events[0].Arrive? then [events[0].message] else [];
      ConcatRegroup(Messages(s.deliveries), Messages(rest.deliveries), rest.box.messages,
                    s.box.messages, b.messages, head, Sent(events[1..]));
    }
  }

  /** Whatever the box held before, after at least one event it is settled: never both a
      message and a reader waiting. */
  lemma {:induction false} RunSettles(b: Box, events: seq<Event>)
    requires |events| > 0
    ensures Run(b, events).box.messages == [] || Run(b, events).box.readers == []
    decreases |events|
  {
    var s := Step(b, events[0]);
    if |events| == 1 {
      match events[0] {
        case Arrive(m) => MatchPairsOldest(b.(messages := b.messages + [m]));
        case Ask(id) => MatchPairsOldest(b.(readers := b.readers + [id]));
      }
      assert Run(s.box, events[1..]).box == s.box;
    } else {
      RunSettles(s.box, events[1..]);
    }
  }
}
