/** When the two loops of the read transfer stop, and what they answer, told from their receive calls
    alone. */
module ReadLaws {
  import opened Bytes
  import opened Packets
  import opened Protocol
  import opened Scripts
  import opened ReadEndpoints

  // ----- the server sends -----

  /** The event acknowledges block b. */
  predicate Confirms(masked: bool, event: Received, b: UInt16)
  {
    event.Arrived? && event.packet.Ack? && AckNumber(masked, event.packet.number) == b
  }

  /** The block the server awaits the acknowledgment of: the first one not acknowledged in its turn. */
  function Awaited(masked: bool, heard: seq<Received>): UInt16
  {
    if |heard| == 0 then 1
    else
      var b := Awaited(masked, heard[..|heard| - 1]);
      if Confirms(masked, heard[|heard| - 1], b) then Increment(b) else b
  }

  lemma AwaitedSnoc(masked: bool, heard: seq<Received>, event: Received)
    ensures var b := Awaited(masked, heard);
      Awaited(masked, heard + [event]) == if Confirms(masked, event, b) then Increment(b) else b
  {
    assert (heard + [event])[..|heard|] == heard;
  }

  lemma SenderStarts(file: seq<Byte>, masked: bool)
    ensures SenderRun(file, masked, []) ==
      if Block(file, 1) == [] then (Finished(EndOfFile), []) else (Waiting(1, 5), [Data(1, Block(file, 1))])
  {
  }

  /** One call more, in terms of the block awaited and the silence before. */
  lemma SenderTurn(file: seq<Byte>, masked: bool, sender: Sender, event: Received)
    requires sender.Waiting? && sender.retry >= 1
    ensures var b := sender.block;
      SenderStep(file, masked, sender, event) ==
        if event.Timeout? then
          if sender.retry == 1 then (Finished(GaveUp), [])
          else if Block(file, b) == [] then (Finished(EndOfFile), [])
          else (Waiting(b, sender.retry - 1), [Data(b, Block(file, b))])
        else if !Confirms(masked, event, b) then
          if Block(file, b) == [] then (Finished(EndOfFile), [Error(2)])
          else (Waiting(b, 5), [Error(2), Data(b, Block(file, b))])
        else if |Block(file, b)| < 512 then (Finished(Acknowledged), [])
        else if Block(file, Increment(b)) == [] then (Finished(EndOfFile), [])
        else (Waiting(Increment(b), 5), [Data(Increment(b), Block(file, Increment(b)))])
  {
    var p := Data(sender.block, Block(file, sender.block));
    assert [Error(2)] + [p] == [Error(2), p];
    assert [Error(2)] + [] == [Error(2)];
  }

  /** A waiting server awaits that block, and has tries left for as long as the silence is below five. */
  lemma {:induction false} SenderHistory(file: seq<Byte>, masked: bool, heard: seq<Received>)
    requires SenderRun(file, masked, heard).0.Waiting?
    ensures Silence(heard, Timeout) < 5 && Block(file, Awaited(masked, heard)) != []
    ensures SenderRun(file, masked, heard).0 == Waiting(Awaited(masked, heard), 5 - Silence(heard, Timeout))
    decreases |heard|
  {
    if |heard| == 0 {
      SenderStarts(file, masked);
      assert heard == [];
    } else {
      var before, event := heard[..|heard| - 1], heard[|heard| - 1];
      assert heard == before + [event];
      assert SenderRun(file, masked, heard) == SenderAfter(file, masked, before, event);
      SenderHistory(file, masked, before);
      SenderTurn(file, masked, SenderRun(file, masked, before).0, event);
      SilenceSnoc(before, event, Timeout);
      AwaitedSnoc(masked, before, event);
    }
  }

  /** The server gives up exactly after five calls in a row that bring nothing, is satisfied exactly by
      the acknowledgment of a short block, and stops without it exactly when the block after a full one
      is missing. */
  lemma SenderExit(file: seq<Byte>, masked: bool, heard: seq<Received>, event: Received)
    requires SenderRun(file, masked, heard).0.Waiting?
    ensures var b, after := Awaited(masked, heard), SenderRun(file, masked, heard + [event]).0;
      && (after == Finished(GaveUp) <==> FiveSilent(heard + [event], Timeout))
      && (after == Finished(Acknowledged) <==> Confirms(masked, event, b) && |Block(file, b)| < 512)
      && (after == Finished(EndOfFile) <==>
            Confirms(masked, event, b) && |Block(file, b)| == 512 && Block(file, Increment(b)) == [])
  {
    SenderHistory(file, masked, heard);
    SenderSnoc(file, masked, heard, event);
    SenderTurn(file, masked, SenderRun(file, masked, heard).0, event);
    SilenceSnoc(heard, event, Timeout);
  }

  /** The event is one on which the server stops. */
  predicate EndsSending(file: seq<Byte>, masked: bool, heard: seq<Received>, event: Received)
  {
    var b := Awaited(masked, heard);
    || FiveSilent(heard + [event], Timeout)
    || (Confirms(masked, event, b) && (|Block(file, b)| < 512 || Block(file, Increment(b)) == []))
  }

  /** A server still waiting has been waiting all the time. */
  lemma SenderWaited(file: seq<Byte>, masked: bool, events: seq<Received>, k: nat, i: nat)
    requires i <= k <= |events| && SenderRun(file, masked, events[..k]).0.Waiting?
    ensures SenderRun(file, masked, events[..i]).0.Waiting?
  {
    if SenderRun(file, masked, events[..i]).0.Finished? {
      assert events[..k][..i] == events[..i];
      SenderStays(file, masked, events[..k], i);
    }
  }

  /** Of the calls the loop makes, only the last can be such an event, and it is if the loop has ended. */
  lemma SenderStops(file: seq<Byte>, masked: bool, events: seq<Received>, calls: nat)
    requires calls <= |events|
    requires Waited(file, masked, events, calls)
    ensures forall i | 0 <= i < calls :: EndsSending(file, masked, events[..i], events[i]) <==>
      i == calls - 1 && SenderRun(file, masked, events[..calls]).0.Finished?
  {
    forall i | 0 <= i < calls
      ensures EndsSending(file, masked, events[..i], events[i]) <==>
        i == calls - 1 && SenderRun(file, masked, events[..calls]).0.Finished?
    {
      assert WaitedLast(file, masked, events, calls);
      SenderStopsAt(file, masked, events, calls, i);
    }
  }

  lemma SenderEnds(file: seq<Byte>, masked: bool, heard: seq<Received>, event: Received)
    requires SenderRun(file, masked, heard).0.Waiting?
    ensures EndsSending(file, masked, heard, event) <==> SenderRun(file, masked, heard + [event]).0.Finished?
  {
    SenderExit(file, masked, heard, event);
  }

  lemma SenderStopsAt(file: seq<Byte>, masked: bool, events: seq<Received>, calls: nat, i: nat)
    requires i < calls <= |events| && SenderRun(file, masked, events[..calls - 1]).0.Waiting?
    ensures EndsSending(file, masked, events[..i], events[i]) <==>
      i == calls - 1 && SenderRun(file, masked, events[..calls]).0.Finished?
  {
    SenderWaited(file, masked, events, calls - 1, i);
    SenderEnds(file, masked, events[..i], events[i]);
    assert events[..i + 1] == events[..i] + [events[i]];
    if i + 1 < calls {
      SenderWaited(file, masked, events, calls - 1, i + 1);
    }
  }

  /** What the server sends after a call: an error to any packet but the awaited acknowledgment, and
      then, unless it stops, the block awaited from now on. */
  lemma SenderReplies(file: seq<Byte>, masked: bool, heard: seq<Received>, event: Received)
    requires SenderRun(file, masked, heard).0.Waiting?
    ensures var all := heard + [event];
      var b, next := Awaited(masked, heard), Awaited(masked, all);
      SenderRun(file, masked, all).1 == SenderRun(file, masked, heard).1
        + (if event.Arrived? && !Confirms(masked, event, b) then [Error(2)] else [])
        + (if SenderRun(file, masked, all).0.Waiting? then [Data(next, Block(file, next))] else [])
  {
    SenderHistory(file, masked, heard);
    SenderSnoc(file, masked, heard, event);
    SenderTurn(file, masked, SenderRun(file, masked, heard).0, event);
    AwaitedSnoc(masked, heard, event);
    var sent := SenderRun(file, masked, heard).1;
    assert forall p, q :: sent + [p, q] == sent + [p] + [q];
    assert forall p: Packet :: sent + [] + [p] == sent + [p];
    assert sent + [] + [] == sent + [];
  }

  // ----- the client receives -----

  /** The block the client expects: the first one not received in its turn. */
  function Expected(heard: seq<ClientEvent>): UInt16
  {
    if |heard| == 0 then 1
    else
      var before := heard[..|heard| - 1];
      if Fresh(before, heard[|heard| - 1], Expected(before)) then Increment(Expected(before)) else Expected(before)
  }

  /** After the calls heard, the event brings block b. */
  predicate Fresh(heard: seq<ClientEvent>, event: ClientEvent, b: UInt16)
  {
    FromServer(heard, event) && event.packet.Data? && event.packet.block == b
  }

  /** The payloads of the blocks received in turn. */
  function Contents(heard: seq<ClientEvent>): seq<Byte>
  {
    if |heard| == 0 then []
    else
      var before, event := heard[..|heard| - 1], heard[|heard| - 1];
      if Fresh(before, event, Expected(before)) then Contents(before) + event.packet.payload else Contents(before)
  }

  lemma ExpectedSnoc(heard: seq<ClientEvent>, event: ClientEvent)
    ensures var b, accepted := Expected(heard), Fresh(heard, event, Expected(heard));
      && Expected(heard + [event]) == (if accepted then Increment(b) else b)
      && Contents(heard + [event]) == (if accepted then Contents(heard) + event.packet.payload else Contents(heard))
  {
    assert (heard + [event])[..|heard|] == heard;
  }

  /** The state that the calls tell of a client still running. */
  ghost predicate ReceiverTold(heard: seq<ClientEvent>, r: Receiver)
  {
    && Silence(heard, ClientTimeout) < 5
    && r == Receiver(Expected(heard), 5 - Silence(heard, ClientTimeout), FirstPort(heard), Contents(heard), Running)
  }

  lemma ReceiverTurn(heard: seq<ClientEvent>, r: Receiver, event: ClientEvent)
    requires ReceiverTold(heard, r)
    ensures var all, next := heard + [event], ReceiverStep(r, event).0;
      && next.written == Contents(all)
      && (next.phase == Running ==> ReceiverTold(all, next))
      && (next.phase == Failed <==>
            FiveSilent(all, ClientTimeout) || (FromServer(heard, event) && !event.packet.Data?))
      && (next.phase == Succeeded <==> Fresh(heard, event, Expected(heard)) && |event.packet.payload| < 512)
  {
    SilenceSnoc(heard, event, ClientTimeout);
    FirstPortSnoc(heard, event);
    ExpectedSnoc(heard, event);
  }

  lemma {:induction false} ReceiverHistory(heard: seq<ClientEvent>)
    requires ReceiverRun(heard).0.phase == Running
    ensures ReceiverTold(heard, ReceiverRun(heard).0)
    decreases |heard|
  {
    if |heard| > 0 {
      var before, event := heard[..|heard| - 1], heard[|heard| - 1];
      assert heard == before + [event];
      ReceiverHistory(before);
      ReceiverTurn(before, ReceiverRun(before).0, event);
    }
  }

  /** The client fails exactly after five calls in a row that bring nothing, or when the server sends
      anything but data; it succeeds exactly on a short block in its turn; and it has written just the
      payloads of the blocks received in turn. */
  lemma ReceiverExit(heard: seq<ClientEvent>, event: ClientEvent)
    requires ReceiverRun(heard).0.phase == Running
    ensures var all := heard + [event];
      var after := ReceiverRun(all).0;
      && (after.phase == Failed <==>
            FiveSilent(all, ClientTimeout) || (FromServer(heard, event) && !event.packet.Data?))
      && (after.phase == Succeeded <==> Fresh(heard, event, Expected(heard)) && |event.packet.payload| < 512)
      && after.written == Contents(all)
  {
    ReceiverHistory(heard);
    ReceiverSnoc(heard, event);
    ReceiverTurn(heard, ReceiverRun(heard).0, event);
  }

  /** What the client answers: an error to a stranger; an error to a packet that is neither data nor an
      error; the block before the expected one, to the server, for any other block; and the expected
      block, astray, for itself. */
  lemma ReceiverReplies(heard: seq<ClientEvent>, event: ClientEvent)
    requires ReceiverRun(heard).0.phase == Running
    ensures ReceiverRun([]).1 == []
    ensures var b := Expected(heard);
      ReceiverRun(heard + [event]).1 == ReceiverRun(heard).1
        + (if FromStranger(heard, event) then [Output(ToStranger, Error(5))]
           else if event.ClientTimeout? || event.packet.Error? then []
           else if !event.packet.Data? then [Output(ToServer, Error(4))]
           else if event.packet.block != b then [Output(ToServer, Ack(if b == 0 then 0xFFFF else b - 1))]
           else [Output(ToUnset, Ack(b))])
  {
    ReceiverHistory(heard);
    ReceiverSnoc(heard, event);
  }

  /** The event is one on which the client stops. */
  predicate EndsReceiving(heard: seq<ClientEvent>, event: ClientEvent)
  {
    || FiveSilent(heard + [event], ClientTimeout)
    || (FromServer(heard, event) && !event.packet.Data?)
    || (Fresh(heard, event, Expected(heard)) && |event.packet.payload| < 512)
  }

  /** A client still running has been running all the time. */
  lemma ReceiverRan(events: seq<ClientEvent>, k: nat, i: nat)
    requires i <= k <= |events| && ReceiverRun(events[..k]).0.phase == Running
    ensures ReceiverRun(events[..i]).0.phase == Running
  {
    if ReceiverRun(events[..i]).0.phase != Running {
      assert events[..k][..i] == events[..i];
      ReceiverStays(events[..k], i);
    }
  }

  /** Of the calls the loop makes, only the last can be such an event, and it is if the loop has ended. */
  lemma ReceiverStops(events: seq<ClientEvent>, calls: nat)
    requires calls <= |events|
    requires calls > 0 ==> ReceiverRun(events[..calls - 1]).0.phase == Running
    ensures forall i | 0 <= i < calls :: EndsReceiving(events[..i], events[i]) <==>
      i == calls - 1 && ReceiverRun(events[..calls]).0.phase != Running
  {
    forall i | 0 <= i < calls
      ensures EndsReceiving(events[..i], events[i]) <==>
        i == calls - 1 && ReceiverRun(events[..calls]).0.phase != Running
    {
      ReceiverStopsAt(events, calls, i);
    }
  }

  lemma ReceiverEnds(heard: seq<ClientEvent>, event: ClientEvent)
    requires ReceiverRun(heard).0.phase == Running
    ensures EndsReceiving(heard, event) <==> ReceiverRun(heard + [event]).0.phase != Running
  {
    ReceiverExit(heard, event);
  }

  lemma ReceiverStopsAt(events: seq<ClientEvent>, calls: nat, i: nat)
    requires i < calls <= |events| && ReceiverRun(events[..calls - 1]).0.phase == Running
    ensures EndsReceiving(events[..i], events[i]) <==>
      i == calls - 1 && ReceiverRun(events[..calls]).0.phase != Running
  {
    ReceiverRan(events, calls - 1, i);
    ReceiverEnds(events[..i], events[i]);
    assert events[..i + 1] == events[..i] + [events[i]];
    if i + 1 < calls {
      ReceiverRan(events, calls - 1, i + 1);
    }
  }
}
