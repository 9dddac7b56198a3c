/** The two loops of the write transfer: the client sends as acknowledgments come, the server
    receives. */
module WriteEndpoints {
  import opened Bytes
  import opened Packets
  import opened Protocol

  // ----- the server's receiving loop -----

  /** Registered means that the file was entered in the server's table. */
  datatype Upload = Upload(expected: UInt16, retry: nat, written: seq<Byte>, phase: UploadPhase)

  datatype UploadPhase = Receiving | Registered | Abandoned

  const INITIAL_UPLOAD: Upload := Upload(1, MAX_RETRY, [], Receiving)

  function UploadStep(u: Upload, event: Received): (Upload, seq<Packet>)
  {
    match event
    case Timeout =>
      var left := if u.retry > 0 then u.retry - 1 else 0;
      (u.(retry := left, phase := if left == 0 then Abandoned else u.phase), [])
    case Arrived(packet) =>
      var heard := u.(retry := MAX_RETRY);
      match packet
      case Ack(_) => (heard, [Error(4)])
      case Error(_) => (heard, [Error(4)])
      case Other => (heard, [Error(4)])
      case Data(block, payload) =>
        if block != u.expected then (heard, [Error(0)])
        else
          (heard.(written := u.written + payload, expected := Increment(u.expected),
                  phase := if |payload| < BLOCK_SIZE then Registered else u.phase),
           [Ack(u.expected)])
  }

  /** The server opens with an acknowledgment of block 0. */
  function UploadRun(events: seq<Received>): (Upload, seq<Packet>)
  {
    if |events| == 0 then (INITIAL_UPLOAD, [Ack(0)])
    else
      var (u, sent) := UploadRun(events[..|events| - 1]);
      if u.phase != Receiving then (u, sent)
      else
        var (next, more) := UploadStep(u, events[|events| - 1]);
        (next, sent + more)
  }

  /** A finished loop hears nothing more. */
  lemma {:induction false} UploadStays(events: seq<Received>, k: nat)
    requires k <= |events| && (k < |events| ==> UploadRun(events[..k]).0.phase != Receiving)
    ensures UploadRun(events) == UploadRun(events[..k])
    decreases |events|
  {
    if k == |events| {
      assert events[..k] == events;
    } else {
      var before := events[..|events| - 1];
      assert before[..k] == events[..k];
      UploadStays(before, k);
    }
  }

  lemma UploadSnoc(heard: seq<Received>, event: Received)
    requires UploadRun(heard).0.phase == Receiving
    ensures var (u, sent) := UploadRun(heard);
      var (next, more) := UploadStep(u, event);
      UploadRun(heard + [event]) == (next, sent + more)
  {
    assert (heard + [event])[..|heard|] == heard;
  }

  lemma UploadAdvance(events: seq<Received>, i: nat)
    requires i < |events| && UploadRun(events[..i]).0.phase == Receiving
    ensures var (u, sent) := UploadRun(events[..i]);
      var (next, more) := UploadStep(u, events[i]);
      UploadRun(events[..i + 1]) == (next, sent + more)
  {
    assert events[..i + 1][..i] == events[..i];
  }

  /** The server's write loop over the receive calls `events`. */
  method HandleWriteRequest(events: seq<Received>)
    returns (written: seq<Byte>, sent: seq<Packet>, calls: nat, phase: UploadPhase)
    ensures calls <= |events| && (phase == Receiving ==> calls == |events|)
    ensures var (u, packets) := UploadRun(events[..calls]);
      written == u.written && sent == packets && phase == u.phase
    ensures calls > 0 ==> UploadRun(events[..calls - 1]).0.phase == Receiving
    ensures calls <= 5 * (Arrivals(events[..calls]) + 1)
  {
    written, sent, calls := [], [Ack(0)], 0;
    var expectedBlockNumber: UInt16 := 1;
    var retry: nat := MAX_RETRY;
    while retry > 0
      invariant calls <= |events| && retry <= MAX_RETRY
      invariant UploadRun(events[..calls]) ==
        (Upload(expectedBlockNumber, retry, written, if retry == 0 then Abandoned else Receiving), sent)
      invariant CallsBounded(events, calls, retry)
      invariant calls > 0 ==> UploadRun(events[..calls - 1]).0.phase == Receiving
      decreases |events| - calls
    {
      if calls == |events| {
        return written, sent, calls, Receiving;
      }
      var event := events[calls];
      CallsStayBounded(events, calls, retry);
      UploadAdvance(events, calls);
      calls := calls + 1;
      if event.Timeout? {
        assert sent + [] == sent;
        retry := retry - 1;
        continue;
      }
      retry := MAX_RETRY;
      if !event.packet.Data? {
        sent := sent + [Error(4)];
        continue;
      }
      if event.packet.block != expectedBlockNumber {
        sent := sent + [Error(0)];
        continue;
      }
      written := written + event.packet.payload;
      sent := sent + [Ack(expectedBlockNumber)];
      expectedBlockNumber := Increment(expectedBlockNumber);
      if |event.packet.payload| < BLOCK_SIZE {
        return written, sent, calls, Registered;
      }
    }
    phase := Abandoned;
  }

  // ----- the client's sending loop -----

  /** `counter` is the acknowledgment the client waits for: the number of the block it sent last. */
  datatype Uploader = Uploader(counter: UInt16, retry: nat, port: int, phase: Phase)

  const INITIAL_UPLOADER: Uploader := Uploader(0, MAX_RETRY, UNPINNED, Running)

  /** An acknowledgment of the block last sent brings the next block, once and for all. */
  function Acknowledge(file: seq<Byte>, u: Uploader, packet: Packet): (Uploader, seq<Output>)
  {
    match packet
    case Data(_, _) => (u.(phase := Failed), [Output(ToServer, Error(4))])
    case Other => (u.(phase := Failed), [Output(ToServer, Error(4))])
    case Error(_) => (u.(phase := Failed), [])
    case Ack(number) =>
      if number != u.counter then
        if u.counter == 0 then (u.(phase := Failed), [Output(ToServer, Error(4))]) else (u, [])
      else
        var next := Increment(u.counter);
        var block := Block(file, next);
        if block == [] then (u.(counter := next, phase := Failed), [])
        else (u.(counter := next, phase := if |block| < BLOCK_SIZE then Succeeded else Running),
              [Output(ToServer, Data(next, block))])
  }

  function UploaderStep(file: seq<Byte>, u: Uploader, event: ClientEvent): (Uploader, seq<Output>)
  {
    match event
    case ClientTimeout =>
      var left := if u.retry > 0 then u.retry - 1 else 0;
      (u.(retry := left, phase := if left == 0 then Failed else Running), [])
    case ClientArrived(source, packet) =>
      var heard := u.(retry := MAX_RETRY);
      match source
      case OtherHost => (heard, [Output(ToStranger, Error(5))])
      case ServerHost(port) =>
        if u.port == UNPINNED then Acknowledge(file, heard.(port := port), packet)
        else if u.port != port then (heard, [Output(ToStranger, Error(5))])
        else Acknowledge(file, heard, packet)
  }

  function UploaderRun(file: seq<Byte>, events: seq<ClientEvent>): (Uploader, seq<Output>)
    decreases |events|, 0
  {
    if |events| == 0 then (INITIAL_UPLOADER, [])
    else UploaderAfter(file, events[..|events| - 1], events[|events| - 1])
  }

  function UploaderAfter(file: seq<Byte>, heard: seq<ClientEvent>, event: ClientEvent): (Uploader, seq<Output>)
    decreases |heard|, 1
  {
    var (u, sent) := UploaderRun(file, heard);
    if u.phase != Running then (u, sent)
    else
      var (next, more) := UploaderStep(file, u, event);
      (next, sent + more)
  }

  lemma {:induction false} UploaderStays(file: seq<Byte>, events: seq<ClientEvent>, k: nat)
    requires k <= |events| && (k < |events| ==> UploaderRun(file, events[..k]).0.phase != Running)
    ensures UploaderRun(file, events) == UploaderRun(file, events[..k])
    decreases |events|
  {
    if k == |events| {
      assert events[..k] == events;
    } else {
      var before := events[..|events| - 1];
      assert before[..k] == events[..k];
      UploaderStays(file, before, k);
      assert UploaderRun(file, events) == UploaderAfter(file, before, events[|events| - 1]);
    }
  }

  lemma UploaderSnoc(file: seq<Byte>, heard: seq<ClientEvent>, event: ClientEvent)
    requires UploaderRun(file, heard).0.phase == Running
    ensures var (u, sent) := UploaderRun(file, heard);
      var (next, more) := UploaderStep(file, u, event);
      UploaderRun(file, heard + [event]) == (next, sent + more)
  {
    assert (heard + [event])[..|heard|] == heard;
    assert UploaderRun(file, heard + [event]) == UploaderAfter(file, heard, event);
  }

  lemma UploaderAdvance(file: seq<Byte>, events: seq<ClientEvent>, i: nat)
    requires i < |events| && UploaderRun(file, events[..i]).0.phase == Running
    ensures var step := UploaderStep(file, UploaderRun(file, events[..i]).0, events[i]);
      && UploaderRun(file, events[..i + 1]).0 == step.0
      && UploaderRun(file, events[..i + 1]).1 == UploaderRun(file, events[..i]).1 + step.1
    ensures ClientArrivals(events[..i + 1]) == ClientArrivals(events[..i]) + (if events[i].ClientArrived? then 1 else 0)
  {
    assert events[..i + 1][..i] == events[..i];
    assert UploaderRun(file, events[..i + 1]) == UploaderAfter(file, events[..i], events[i]);
  }

  /** The client's write loop over the receive calls `events`. */
  method HandleWRQRequest(file: seq<Byte>, events: seq<ClientEvent>)
    returns (sent: seq<Output>, calls: nat, phase: Phase)
    ensures calls <= |events| && (phase == Running ==> calls == |events|)
    ensures var (u, outputs) := UploaderRun(file, events[..calls]);
      sent == outputs && phase == u.phase
    ensures calls > 0 ==> UploaderRun(file, events[..calls - 1]).0.phase == Running
    ensures calls <= 5 * (ClientArrivals(events[..calls]) + 1)
  {
    sent, calls := [], 0;
    var expectedBlockNumber: UInt16 := 0;
    var retry: nat := MAX_RETRY;
    var initialPacket := true;
    var serverPort: int := UNPINNED;
    var dataBuffer := new Byte[BLOCK_SIZE];
    while retry > 0
      invariant calls <= |events| && retry <= MAX_RETRY && initialPacket == (serverPort == UNPINNED)
      invariant UploaderRun(file, events[..calls]).0 ==
        Uploader(expectedBlockNumber, retry, serverPort, if retry == 0 then Failed else Running)
      invariant UploaderRun(file, events[..calls]).1 == sent
      invariant calls > 0 ==> UploaderRun(file, events[..calls - 1]).0.phase == Running
      invariant calls + retry <= 5 * (ClientArrivals(events[..calls]) + 1)
      decreases |events| - calls
    {
      if calls == |events| {
        return sent, calls, Running;
      }
      var event := events[calls];
      UploaderAdvance(file, events, calls);
      assert sent + [] == sent;
      calls := calls + 1;
      if event.ClientTimeout? {
        retry := retry - 1;
        continue;
      }
      retry := MAX_RETRY;
      if event.source.OtherHost? {
        sent := sent + [Output(ToStranger, Error(5))];
        continue;
      }
      if initialPacket {
        serverPort := event.source.port;
        initialPacket := false;
      } else if serverPort != event.source.port {
        sent := sent + [Output(ToStranger, Error(5))];
        continue;
      }
      if !event.packet.Error? && !event.packet.Ack? {
        sent := sent + [Output(ToServer, Error(4))];
        return sent, calls, Failed;
      }
      if event.packet.Error? {
        return sent, calls, Failed;
      }
      if event.packet.number != expectedBlockNumber {
        if expectedBlockNumber == 0 {
          sent := sent + [Output(ToServer, Error(4))];
          return sent, calls, Failed;
        }
        continue;
      }
      expectedBlockNumber := Increment(expectedBlockNumber);
      var block := LoadBlock(file, expectedBlockNumber, dataBuffer);
      if |block| == 0 {
        return sent, calls, Failed;
      }
      sent := sent + [Output(ToServer, Data(expectedBlockNumber, block))];
      if |block| < BLOCK_SIZE {
        return sent, calls, Succeeded;
      }
    }
    phase := Failed;
  }
}
