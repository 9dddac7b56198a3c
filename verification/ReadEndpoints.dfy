/** The two loops of the read transfer: the server sends, the client receives. */
module ReadEndpoints {
  import opened Bytes
  import opened Packets
  import opened Protocol

  // ----- the sender -----

  datatype Outcome = Acknowledged | EndOfFile | GaveUp

  /** Waiting for the acknowledgment of `block`, or finished. */
  datatype Sender = Waiting(block: UInt16, retry: nat) | Finished(outcome: Outcome)

  /** How the acknowledgment's number is read: with each byte masked, or as signed chars. */
  function AckNumber(masked: bool, number: UInt16): UInt16
  {
    var bytes := BigEndian(number);
    if masked then Masked(bytes[0], bytes[1]) else Unmasked(bytes[0], bytes[1])
  }

  /** The top of the loop: stop, or read the block and send it. */
  function Send(file: seq<Byte>, block: UInt16, retry: nat): (Sender, seq<Packet>)
  {
    if retry == 0 then (Finished(GaveUp), [])
    else if Block(file, block) == [] then (Finished(EndOfFile), [])
    else (Waiting(block, retry), [Data(block, Block(file, block))])
  }

  /** The rest of the loop after one receive call. */
  function SenderStep(file: seq<Byte>, masked: bool, sender: Sender, event: Received): (Sender, seq<Packet>)
    requires sender.Waiting?
  {
    match event
    case Timeout => Send(file, sender.block, if sender.retry > 0 then sender.retry - 1 else 0)
    case Arrived(packet) =>
      if !packet.Ack? || AckNumber(masked, packet.number) != sender.block then
        var (next, sent) := Send(file, sender.block, MAX_RETRY);
        (next, [Error(2)] + sent)
      else if |Block(file, sender.block)| < BLOCK_SIZE then (Finished(Acknowledged), [])
      else Send(file, Increment(sender.block), MAX_RETRY)
  }

  /** The sender's state and all packets sent after a series of receive calls. */
  function SenderRun(file: seq<Byte>, masked: bool, events: seq<Received>): (Sender, seq<Packet>)
    decreases |events|, 0
  {
    if |events| == 0 then Send(file, 1, MAX_RETRY)
    else SenderAfter(file, masked, events[..|events| - 1], events[|events| - 1])
  }

  function SenderAfter(file: seq<Byte>, masked: bool, heard: seq<Received>, event: Received): (Sender, seq<Packet>)
    decreases |heard|, 1
  {
    var (sender, sent) := SenderRun(file, masked, heard);
    if sender.Finished? then (sender, sent)
    else
      var (next, more) := SenderStep(file, masked, sender, event);
      (next, sent + more)
  }

  /** Each of the first `calls` receive calls was made while waiting. */
  ghost predicate Waited(file: seq<Byte>, masked: bool, events: seq<Received>, calls: nat)
    requires calls <= |events|
    decreases calls, 1
  {
    calls == 0 || WaitedLast(file, masked, events, calls)
  }

  ghost predicate WaitedLast(file: seq<Byte>, masked: bool, events: seq<Received>, calls: nat)
    requires 1 <= calls <= |events|
    decreases calls, 0
  {
    SenderRun(file, masked, events[..calls - 1]).0.Waiting? && Waited(file, masked, events, calls - 1)
  }

  lemma WaitedOnce(file: seq<Byte>, masked: bool, events: seq<Received>, calls: nat)
    requires calls < |events| && Waited(file, masked, events, calls)
    requires SenderRun(file, masked, events[..calls]).0.Waiting?
    ensures Waited(file, masked, events, calls + 1)
  {
    assert WaitedLast(file, masked, events, calls + 1);
  }

  /** At the top of the loop: what `Send` does next completes the run so far. */
  ghost predicate BeforeSend(file: seq<Byte>, masked: bool, events: seq<Received>, block: UInt16, retry: nat,
                             sent: seq<Packet>)
  {
    var (next, more) := Send(file, block, retry);
    SenderRun(file, masked, events) == (next, sent + more)
  }

  lemma AtStart(file: seq<Byte>, masked: bool, events: seq<Received>)
    ensures BeforeSend(file, masked, events[..0], 1, MAX_RETRY, [])
  {
    var sent := Send(file, 1, MAX_RETRY).1;
    assert [] + sent == sent;
  }

  lemma AtTop(file: seq<Byte>, masked: bool, events: seq<Received>, block: UInt16, retry: nat, sent: seq<Packet>)
    requires BeforeSend(file, masked, events, block, retry, sent)
    ensures SenderRun(file, masked, events) ==
      if retry == 0 then (Finished(GaveUp), sent)
      else if Block(file, block) == [] then (Finished(EndOfFile), sent)
      else (Waiting(block, retry), sent + [Data(block, Block(file, block))])
  {
    assert sent + [] == sent;
  }

  /** A finished loop hears nothing more. */
  lemma {:induction false} SenderStays(file: seq<Byte>, masked: bool, events: seq<Received>, k: nat)
    requires k <= |events| && (k < |events| ==> SenderRun(file, masked, events[..k]).0.Finished?)
    ensures SenderRun(file, masked, events) == SenderRun(file, masked, events[..k])
    decreases |events|
  {
    if k == |events| {
      assert events[..k] == events;
    } else {
      var before := events[..|events| - 1];
      assert before[..k] == events[..k];
      SenderStays(file, masked, before, k);
      assert SenderRun(file, masked, events) == SenderAfter(file, masked, before, events[|events| - 1]);
    }
  }

  lemma SenderSnoc(file: seq<Byte>, masked: bool, heard: seq<Received>, event: Received)
    requires SenderRun(file, masked, heard).0.Waiting?
    ensures var (sender, sent) := SenderRun(file, masked, heard);
      var (next, more) := SenderStep(file, masked, sender, event);
      SenderRun(file, masked, heard + [event]) == (next, sent + more)
  {
    assert (heard + [event])[..|heard|] == heard;
    assert SenderRun(file, masked, heard + [event]) == SenderAfter(file, masked, heard, event);
  }

  /** A time-out brings the loop back to its top. */
  lemma AfterTimeout(file: seq<Byte>, masked: bool, events: seq<Received>, i: nat,
                     b: UInt16, retry: nat, sent: seq<Packet>)
    requires i < |events| && events[i].Timeout? && retry > 0
    requires SenderRun(file, masked, events[..i]) == (Waiting(b, retry), sent)
    ensures BeforeSend(file, masked, events[..i + 1], b, retry - 1, sent)
  {
    SenderSnoc(file, masked, events[..i], Timeout);
    assert events[..i + 1] == events[..i] + [Timeout];
  }

  /** So does a packet that is not the awaited acknowledgment, after an error has been sent. */
  lemma AfterOther(file: seq<Byte>, masked: bool, events: seq<Received>, i: nat,
                   b: UInt16, retry: nat, sent: seq<Packet>)
    requires i < |events| && events[i].Arrived?
    requires !events[i].packet.Ack? || AckNumber(masked, events[i].packet.number) != b
    requires SenderRun(file, masked, events[..i]) == (Waiting(b, retry), sent)
    ensures BeforeSend(file, masked, events[..i + 1], b, MAX_RETRY, sent + [Error(2)])
  {
    SenderSnoc(file, masked, events[..i], events[i]);
    assert events[..i + 1] == events[..i] + [events[i]];
    var again := Send(file, b, MAX_RETRY).1;
    assert sent + ([Error(2)] + again) == (sent + [Error(2)]) + again;
  }

  /** The awaited acknowledgment ends the loop after a short block. */
  lemma AfterLastAck(file: seq<Byte>, masked: bool, events: seq<Received>, i: nat,
                     b: UInt16, retry: nat, sent: seq<Packet>)
    requires i < |events| && events[i].Arrived?
    requires events[i].packet.Ack? && AckNumber(masked, events[i].packet.number) == b
    requires |Block(file, b)| < BLOCK_SIZE
    requires SenderRun(file, masked, events[..i]) == (Waiting(b, retry), sent)
    ensures SenderRun(file, masked, events[..i + 1]) == (Finished(Acknowledged), sent)
  {
    SenderSnoc(file, masked, events[..i], events[i]);
    assert events[..i + 1] == events[..i] + [events[i]];
    assert sent + [] == sent;
  }

  /** After a full block it moves the loop on. */
  lemma AfterAck(file: seq<Byte>, masked: bool, events: seq<Received>, i: nat,
                 b: UInt16, retry: nat, sent: seq<Packet>)
    requires i < |events| && events[i].Arrived?
    requires events[i].packet.Ack? && AckNumber(masked, events[i].packet.number) == b
    requires |Block(file, b)| == BLOCK_SIZE
    requires SenderRun(file, masked, events[..i]) == (Waiting(b, retry), sent)
    ensures BeforeSend(file, masked, events[..i + 1], Increment(b), MAX_RETRY, sent)
  {
    SenderSnoc(file, masked, events[..i], events[i]);
    assert events[..i + 1] == events[..i] + [events[i]];
  }

  /** The server's read loop over the receive calls `events`, until it exits or they are used up. */
  method HandleReadRequest(file: seq<Byte>, masked: bool, events: seq<Received>)
    returns (sent: seq<Packet>, calls: nat, retry: nat, running: bool, ghost sender: Sender)
    ensures calls <= |events| && (running ==> calls == |events|)
    ensures SenderRun(file, masked, events[..calls]) == (sender, sent)
    ensures Waited(file, masked, events, calls)
    ensures (running <==> sender.Waiting?) && (retry == 0 <==> sender == Finished(GaveUp))
    ensures calls <= 5 * (Arrivals(events[..calls]) + 1)
  {
    sent := [];
    calls := 0;
    retry := MAX_RETRY;
    var blockNumber: UInt16 := 1;
    var dataBuffer := new Byte[BLOCK_SIZE];
    AtStart(file, masked, events);
    while retry > 0
      invariant calls <= |events| && retry <= MAX_RETRY
      invariant BeforeSend(file, masked, events[..calls], blockNumber, retry, sent)
      invariant CallsBounded(events, calls, retry)
      invariant Waited(file, masked, events, calls)
      decreases |events| - calls
    {
      var block := LoadBlock(file, blockNumber, dataBuffer);
      AtTop(file, masked, events[..calls], blockNumber, retry, sent);
      if |block| == 0 {
        return sent, calls, retry, false, Finished(EndOfFile);
      }
      sent := sent + [Data(blockNumber, block)];
      if calls == |events| {
        return sent, calls, retry, true, Waiting(blockNumber, retry);
      }
      var event := events[calls];
      ghost var left := retry;
      CallsStayBounded(events, calls, retry);
      WaitedOnce(file, masked, events, calls);
      calls := calls + 1;
      if event.Timeout? {
        AfterTimeout(file, masked, events, calls - 1, blockNumber, left, sent);
        retry := retry - 1;
        continue;
      }
      retry := MAX_RETRY;
      if !event.packet.Ack? || AckNumber(masked, event.packet.number) != blockNumber {
        AfterOther(file, masked, events, calls - 1, blockNumber, left, sent);
        sent := sent + [Error(2)];
        continue;
      }
      if |block| < BLOCK_SIZE {
        AfterLastAck(file, masked, events, calls - 1, blockNumber, left, sent);
        return sent, calls, retry, false, Finished(Acknowledged);
      }
      AfterAck(file, masked, events, calls - 1, blockNumber, left, sent);
      blockNumber := Increment(blockNumber);
    }
    AtTop(file, masked, events[..calls], blockNumber, retry, sent);
    running, sender := false, Finished(GaveUp);
  }

  // ----- the receiver -----

  /** `port` is the transfer identifier, once the first packet has pinned it. */
  datatype Receiver = Receiver(expected: UInt16, retry: nat, port: int, written: seq<Byte>, phase: Phase)

  const INITIAL_RECEIVER: Receiver := Receiver(1, MAX_RETRY, UNPINNED, [], Running)

  function Accept(receiver: Receiver, packet: Packet): (Receiver, seq<Output>)
  {
    match packet
    case Ack(_) => (receiver.(phase := Failed), [Output(ToServer, Error(4))])
    case Other => (receiver.(phase := Failed), [Output(ToServer, Error(4))])
    case Error(_) => (receiver.(phase := Failed), [])
    case Data(block, payload) =>
      if block != receiver.expected then
        (receiver, [Output(ToServer, Ack(Decrement(receiver.expected)))])
      else
        (receiver.(written := receiver.written + payload,
                   expected := Increment(receiver.expected),
                   phase := if |payload| < BLOCK_SIZE then Succeeded else Running),
         [Output(ToUnset, Ack(block))])
  }

  function ReceiverStep(receiver: Receiver, event: ClientEvent): (Receiver, seq<Output>)
  {
    match event
    case ClientTimeout =>
      var left := if receiver.retry > 0 then receiver.retry - 1 else 0;
      (receiver.(retry := left, phase := if left == 0 then Failed else Running), [])
    case ClientArrived(source, packet) =>
      var heard := receiver.(retry := MAX_RETRY);
      match source
      case OtherHost => (heard, [Output(ToStranger, Error(5))])
      case ServerHost(port) =>
        if receiver.port == UNPINNED then Accept(heard.(port := port), packet)
        else if receiver.port != port then (heard, [Output(ToStranger, Error(5))])
        else Accept(heard, packet)
  }

  function ReceiverRun(events: seq<ClientEvent>): (Receiver, seq<Output>)
  {
    if |events| == 0 then (INITIAL_RECEIVER, [])
    else
      var (receiver, sent) := ReceiverRun(events[..|events| - 1]);
      if receiver.phase != Running then (receiver, sent)
      else
        var (next, more) := ReceiverStep(receiver, events[|events| - 1]);
        (next, sent + more)
  }

  lemma {:induction false} ReceiverStays(events: seq<ClientEvent>, k: nat)
    requires k <= |events| && (k < |events| ==> ReceiverRun(events[..k]).0.phase != Running)
    ensures ReceiverRun(events) == ReceiverRun(events[..k])
    decreases |events|
  {
    if k == |events| {
      assert events[..k] == events;
    } else {
      var before := events[..|events| - 1];
      assert before[..k] == events[..k];
      ReceiverStays(before, k);
    }
  }

  lemma ReceiverSnoc(heard: seq<ClientEvent>, event: ClientEvent)
    requires ReceiverRun(heard).0.phase == Running
    ensures var (receiver, sent) := ReceiverRun(heard);
      var (next, more) := ReceiverStep(receiver, event);
      ReceiverRun(heard + [event]) == (next, sent + more)
  {
    assert (heard + [event])[..|heard|] == heard;
  }

  lemma ReceiverAdvance(events: seq<ClientEvent>, i: nat)
    requires i < |events| && ReceiverRun(events[..i]).0.phase == Running
    ensures var (receiver, sent) := ReceiverRun(events[..i]);
      var (next, more) := ReceiverStep(receiver, events[i]);
      ReceiverRun(events[..i + 1]) == (next, sent + more)
    ensures ClientArrivals(events[..i + 1]) == ClientArrivals(events[..i]) + (if events[i].ClientArrived? then 1 else 0)
  {
    assert events[..i + 1][..i] == events[..i];
  }

  /** The client's read loop over the receive calls `events`. */
  method HandleRRQRequest(events: seq<ClientEvent>)
    returns (written: seq<Byte>, sent: seq<Output>, calls: nat, phase: Phase)
    ensures calls <= |events| && (phase == Running ==> calls == |events|)
    ensures var (receiver, outputs) := ReceiverRun(events[..calls]);
      written == receiver.written && sent == outputs && phase == receiver.phase
    ensures calls > 0 ==> ReceiverRun(events[..calls - 1]).0.phase == Running
    ensures calls <= 5 * (ClientArrivals(events[..calls]) + 1)
  {
    written, sent, calls := [], [], 0;
    var expectedBlockNumber: UInt16 := 1;
    var retry: nat := MAX_RETRY;
    var initialPacket := true;
    var serverPort: int := UNPINNED;
    while retry > 0
      invariant calls <= |events| && retry <= MAX_RETRY && initialPacket == (serverPort == UNPINNED)
      invariant ReceiverRun(events[..calls]) ==
        (Receiver(expectedBlockNumber, retry, serverPort, written, if retry == 0 then Failed else Running), sent)
      invariant calls > 0 ==> ReceiverRun(events[..calls - 1]).0.phase == Running
      invariant calls + retry <= 5 * (ClientArrivals(events[..calls]) + 1)
      decreases |events| - calls
    {
      if calls == |events| {
        return written, sent, calls, Running;
      }
      var event := events[calls];
      ReceiverAdvance(events, calls);
      calls := calls + 1;
      if event.ClientTimeout? {
        assert sent + [] == sent;
        retry := retry - 1;
        continue;
      }
      retry := MAX_RETRY;
      if event.source.OtherHost? {
        sent := sent + [Output(ToStranger, Error(5))];
        continue;
      }
      if initialPacket {
        serverPort := event.source.port;
        initialPacket := false;
      } else if serverPort != event.source.port {
        sent := sent + [Output(ToStranger, Error(5))];
        continue;
      }
      if !event.packet.Error? && !event.packet.Data? {
        sent := sent + [Output(ToServer, Error(4))];
        return written, sent, calls, Failed;
      }
      if event.packet.Error? {
        assert sent + [] == sent;
        return written, sent, calls, Failed;
      }
      if event.packet.block != expectedBlockNumber {
        sent := sent + [Output(ToServer, Ack(Decrement(expectedBlockNumber)))];
        continue;
      }
      written := written + event.packet.payload;
      sent := sent + [Output(ToUnset, Ack(event.packet.block))];
      expectedBlockNumber := Increment(expectedBlockNumber);
      if |event.packet.payload| < BLOCK_SIZE {
        return written, sent, calls, Succeeded;
      }
    }
    phase := Failed;
  }
}
