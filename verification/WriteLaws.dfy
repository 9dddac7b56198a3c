/** When the two loops of the write transfer stop, and what they answer, told from their receive calls
    alone. */
module WriteLaws {
  import opened Bytes
  import opened Packets
  import opened Protocol
  import opened Scripts
  import opened WriteEndpoints

  // ----- the server receives -----

  /** The block the server expects: the first one not received in its turn. */
  function Expected(heard: seq<Received>): UInt16
  {
    if |heard| == 0 then 1
    else
      var b := Expected(heard[..|heard| - 1]);
      if Fresh(heard[|heard| - 1], b) then Increment(b) else b
  }

  /** The event brings block b. */
  predicate Fresh(event: Received, b: UInt16)
  {
    event.Arrived? && event.packet.Data? && event.packet.block == b
  }

  /** The payloads of the blocks received in turn. */
  function Contents(heard: seq<Received>): seq<Byte>
  {
    if |heard| == 0 then []
    else
      var before, event := heard[..|heard| - 1], heard[|heard| - 1];
      if Fresh(event, Expected(before)) then Contents(before) + event.packet.payload else Contents(before)
  }

  lemma ExpectedSnoc(heard: seq<Received>, event: Received)
    ensures var b, accepted := Expected(heard), Fresh(event, Expected(heard));
      && Expected(heard + [event]) == (if accepted then Increment(b) else b)
      && Contents(heard + [event]) == (if accepted then Contents(heard) + event.packet.payload else Contents(heard))
  {
    assert (heard + [event])[..|heard|] == heard;
  }

  /** The state that the calls tell of a server still receiving. */
  ghost predicate UploadTold(heard: seq<Received>, u: Upload)
  {
    && Silence(heard, Timeout) < 5
    && u == Upload(Expected(heard), 5 - Silence(heard, Timeout), Contents(heard), Receiving)
  }

  lemma UploadTurn(heard: seq<Received>, u: Upload, event: Received)
    requires UploadTold(heard, u)
    ensures var all, next := heard + [event], UploadStep(u, event).0;
      && next.written == Contents(all)
      && (next.phase == Receiving ==> UploadTold(all, next))
      && (next.phase == Abandoned <==> FiveSilent(all, Timeout))
      && (next.phase == Registered <==> Fresh(event, Expected(heard)) && |event.packet.payload| < 512)
  {
    SilenceSnoc(heard, event, Timeout);
    ExpectedSnoc(heard, event);
  }

  lemma {:induction false} UploadHistory(heard: seq<Received>)
    requires UploadRun(heard).0.phase == Receiving
    ensures UploadTold(heard, UploadRun(heard).0)
    decreases |heard|
  {
    if |heard| > 0 {
      var before, event := heard[..|heard| - 1], heard[|heard| - 1];
      assert heard == before + [event];
      UploadHistory(before);
      UploadTurn(before, UploadRun(before).0, event);
    }
  }

  /** The server gives up exactly after five calls in a row that bring nothing, and registers the file
      exactly on a short block in its turn; it has written just the payloads of the blocks received in
      turn. */
  lemma UploadExit(heard: seq<Received>, event: Received)
    requires UploadRun(heard).0.phase == Receiving
    ensures var all := heard + [event];
      var after := UploadRun(all).0;
      && (after.phase == Abandoned <==> FiveSilent(all, Timeout))
      && (after.phase == Registered <==> Fresh(event, Expected(heard)) && |event.packet.payload| < 512)
      && after.written == Contents(all)
  {
    UploadHistory(heard);
    UploadSnoc(heard, event);
    UploadTurn(heard, UploadRun(heard).0, event);
  }

  /** The event is one on which the server stops. */
  predicate EndsUpload(heard: seq<Received>, event: Received)
  {
    || FiveSilent(heard + [event], Timeout)
    || (Fresh(event, Expected(heard)) && |event.packet.payload| < 512)
  }

  /** A server still receiving has been receiving all the time. */
  lemma UploadRan(events: seq<Received>, k: nat, i: nat)
    requires i <= k <= |events| && UploadRun(events[..k]).0.phase == Receiving
    ensures UploadRun(events[..i]).0.phase == Receiving
  {
    if UploadRun(events[..i]).0.phase != Receiving {
      assert events[..k][..i] == events[..i];
      UploadStays(events[..k], i);
    }
  }

  /** Of the calls the loop makes, only the last can be such an event, and it is if the loop has ended. */
  lemma UploadStops(events: seq<Received>, calls: nat)
    requires calls <= |events|
    requires calls > 0 ==> UploadRun(events[..calls - 1]).0.phase == Receiving
    ensures forall i | 0 <= i < calls :: EndsUpload(events[..i], events[i]) <==>
      i == calls - 1 && UploadRun(events[..calls]).0.phase != Receiving
  {
    forall i | 0 <= i < calls
      ensures EndsUpload(events[..i], events[i]) <==>
        i == calls - 1 && UploadRun(events[..calls]).0.phase != Receiving
    {
      UploadStopsAt(events, calls, i);
    }
  }

  lemma UploadEnds(heard: seq<Received>, event: Received)
    requires UploadRun(heard).0.phase == Receiving
    ensures EndsUpload(heard, event) <==> UploadRun(heard + [event]).0.phase != Receiving
  {
    UploadExit(heard, event);
  }

  lemma UploadStopsAt(events: seq<Received>, calls: nat, i: nat)
    requires i < calls <= |events| && UploadRun(events[..calls - 1]).0.phase == Receiving
    ensures EndsUpload(events[..i], events[i]) <==>
      i == calls - 1 && UploadRun(events[..calls]).0.phase != Receiving
  {
    UploadRan(events, calls - 1, i);
    UploadEnds(events[..i], events[i]);
    assert events[..i + 1] == events[..i] + [events[i]];
    if i + 1 < calls {
      UploadRan(events, calls - 1, i + 1);
    }
  }

  /** What the server answers: it acknowledges block 0 unasked, then each block in its turn; any other
      block, and any other packet, gets an error; silence gets nothing. */
  lemma UploadReplies(heard: seq<Received>, event: Received)
    requires UploadRun(heard).0.phase == Receiving
    ensures UploadRun([]).1 == [Ack(0)]
    ensures var b := Expected(heard);
      UploadRun(heard + [event]).1 == UploadRun(heard).1
        + (if event.Timeout? then []
           else if !event.packet.Data? then [Error(4)]
           else if event.packet.block != b then [Error(0)]
           else [Ack(b)])
  {
    UploadHistory(heard);
    UploadSnoc(heard, event);
  }

  /** The numbers acknowledged. */
  function AcksIn(sent: seq<Packet>): seq<UInt16>
  {
    if |sent| == 0 then []
    else
      var k := |sent| - 1;
      AcksIn(sent[..k]) + (if sent[k].Ack? then [sent[k].number] else [])
  }

  lemma AcksSnoc(sent: seq<Packet>, p: Packet)
    ensures AcksIn(sent + [p]) == AcksIn(sent) + (if p.Ack? then [p.number] else [])
  {
    assert (sent + [p])[..|sent|] == sent;
  }

  /** The acknowledgments are 0, 1, 2 and so on, modulo 2^16, up to the block before b. */
  ghost predicate CountsUpTo(acks: seq<UInt16>, b: UInt16)
  {
    && (forall i | 0 <= i < |acks| :: acks[i] == i % 0x1_0000)
    && |acks| >= 1 && b == |acks| % 0x1_0000
  }

  lemma CountOn(acks: seq<UInt16>, b: UInt16)
    requires CountsUpTo(acks, b)
    ensures CountsUpTo(acks + [b], Increment(b))
  {
  }

  /** The server acknowledges 0, 1, 2 and so on, up to the block before the one it expects; and every
      packet gets one answer. */
  lemma {:induction false} AcksInOrder(heard: seq<Received>)
    requires |heard| > 0 ==> UploadRun(heard[..|heard| - 1]).0.phase == Receiving
    ensures CountsUpTo(AcksIn(UploadRun(heard).1), Expected(heard))
    ensures |UploadRun(heard).1| == 1 + Arrivals(heard)
    decreases |heard|
  {
    if |heard| == 0 {
      AcksSnoc([], Ack(0));
      assert [] + [Ack(0)] == [Ack(0)];
      assert heard == [];
    } else {
      var before, event := heard[..|heard| - 1], heard[|heard| - 1];
      assert heard == before + [event];
      if |before| > 0 {
        assert before[..|before|] == before;
        UploadRan(before, |before|, |before| - 1);
      }
      AcksInOrder(before);
      ExpectedSnoc(before, event);
      OneAnswer(before, event);
      CountOn(AcksIn(UploadRun(before).1), Expected(before));
    }
  }

  lemma OneAnswer(heard: seq<Received>, event: Received)
    requires UploadRun(heard).0.phase == Receiving
    ensures var acks, all := AcksIn(UploadRun(heard).1), heard + [event];
      AcksIn(UploadRun(all).1) == if Fresh(event, Expected(heard)) then acks + [Expected(heard)] else acks
    ensures |UploadRun(heard + [event]).1| == |UploadRun(heard).1| + (if event.Arrived? then 1 else 0)
  {
    UploadReplies(heard, event);
    var sent := UploadRun(heard).1;
    if event.Timeout? {
      assert sent + [] == sent;
    } else {
      AcksSnoc(sent, Ack(Expected(heard)));
      AcksSnoc(sent, Error(4));
      AcksSnoc(sent, Error(0));
      assert AcksIn(sent) + [] == AcksIn(sent);
    }
  }

  // ----- the client sends -----

  /** The acknowledgment the client awaits: the first one not received in its turn, from 0 on. */
  function Awaited(heard: seq<ClientEvent>): UInt16
  {
    if |heard| == 0 then 0
    else
      var before := heard[..|heard| - 1];
      if Answers(before, heard[|heard| - 1], Awaited(before)) then Increment(Awaited(before)) else Awaited(before)
  }

  /** After the calls heard, the event acknowledges block n. */
  predicate Answers(heard: seq<ClientEvent>, event: ClientEvent, n: UInt16)
  {
    FromServer(heard, event) && event.packet.Ack? && event.packet.number == n
  }

  lemma AwaitedSnoc(heard: seq<ClientEvent>, event: ClientEvent)
    ensures var n := Awaited(heard);
      Awaited(heard + [event]) == if Answers(heard, event, n) then Increment(n) else n
  {
    assert (heard + [event])[..|heard|] == heard;
  }

  /** The state that the calls tell of a client still running. */
  ghost predicate UploaderTold(heard: seq<ClientEvent>, u: Uploader)
  {
    && Silence(heard, ClientTimeout) < 5
    && u == Uploader(Awaited(heard), 5 - Silence(heard, ClientTimeout), FirstPort(heard), Running)
  }

  /** What makes the client fail: five calls in a row that bring nothing; from the server anything but an
      acknowledgment, or a first acknowledgment that is not of block 0; or, on the awaited one, that no
      further block can be read. */
  predicate FailsUpload(file: seq<Byte>, heard: seq<ClientEvent>, event: ClientEvent)
  {
    var n := Awaited(heard);
    || FiveSilent(heard + [event], ClientTimeout)
    || (FromServer(heard, event) && (
          || !event.packet.Ack?
          || (event.packet.number != n && n == 0)
          || (event.packet.number == n && Block(file, Increment(n)) == [])))
  }

  /** What makes it succeed: the awaited acknowledgment, with a short block to send next. */
  predicate CompletesUpload(file: seq<Byte>, heard: seq<ClientEvent>, event: ClientEvent)
  {
    var n := Awaited(heard);
    Answers(heard, event, n) && 1 <= |Block(file, Increment(n))| < 512
  }

  lemma UploaderTurn(file: seq<Byte>, heard: seq<ClientEvent>, u: Uploader, event: ClientEvent)
    requires UploaderTold(heard, u)
    ensures var all, next := heard + [event], UploaderStep(file, u, event).0;
      && (next.phase == Running ==> UploaderTold(all, next))
      && (next.phase == Failed <==> FailsUpload(file, heard, event))
      && (next.phase == Succeeded <==> CompletesUpload(file, heard, event))
  {
    SilenceSnoc(heard, event, ClientTimeout);
    FirstPortSnoc(heard, event);
    AwaitedSnoc(heard, event);
  }

  lemma {:induction false} UploaderHistory(file: seq<Byte>, heard: seq<ClientEvent>)
    requires UploaderRun(file, heard).0.phase == Running
    ensures UploaderTold(heard, UploaderRun(file, heard).0)
    decreases |heard|
  {
    if |heard| > 0 {
      var before, event := heard[..|heard| - 1], heard[|heard| - 1];
      assert heard == before + [event];
      assert UploaderRun(file, heard) == UploaderAfter(file, before, event);
      UploaderHistory(file, before);
      UploaderTurn(file, before, UploaderRun(file, before).0, event);
    }
  }

  /** The client fails and succeeds exactly then. */
  lemma UploaderExit(file: seq<Byte>, heard: seq<ClientEvent>, event: ClientEvent)
    requires UploaderRun(file, heard).0.phase == Running
    ensures var after := UploaderRun(file, heard + [event]).0;
      && (after.phase == Failed <==> FailsUpload(file, heard, event))
      && (after.phase == Succeeded <==> CompletesUpload(file, heard, event))
  {
    UploaderHistory(file, heard);
    UploaderSnoc(file, heard, event);
    UploaderTurn(file, heard, UploaderRun(file, heard).0, event);
  }

  /** A client still running has been running all the time. */
  lemma UploaderRan(file: seq<Byte>, events: seq<ClientEvent>, k: nat, i: nat)
    requires i <= k <= |events| && UploaderRun(file, events[..k]).0.phase == Running
    ensures UploaderRun(file, events[..i]).0.phase == Running
  {
    if UploaderRun(file, events[..i]).0.phase != Running {
      assert events[..k][..i] == events[..i];
      UploaderStays(file, events[..k], i);
    }
  }

  /** Of the calls the loop makes, only the last can be such an event, and it tells how the loop ended. */
  lemma UploaderStops(file: seq<Byte>, events: seq<ClientEvent>, calls: nat)
    requires calls <= |events|
    requires calls > 0 ==> UploaderRun(file, events[..calls - 1]).0.phase == Running
    ensures var phase := UploaderRun(file, events[..calls]).0.phase;
      && (forall i | 0 <= i < calls ::
            FailsUpload(file, events[..i], events[i]) <==> i == calls - 1 && phase == Failed)
      && (forall i | 0 <= i < calls ::
            CompletesUpload(file, events[..i], events[i]) <==> i == calls - 1 && phase == Succeeded)
  {
    forall i | 0 <= i < calls
      ensures var phase := UploaderRun(file, events[..calls]).0.phase;
        && (FailsUpload(file, events[..i], events[i]) <==> i == calls - 1 && phase == Failed)
        && (CompletesUpload(file, events[..i], events[i]) <==> i == calls - 1 && phase == Succeeded)
    {
      UploaderStopsAt(file, events, calls, i);
    }
  }

  lemma UploaderStopsAt(file: seq<Byte>, events: seq<ClientEvent>, calls: nat, i: nat)
    requires i < calls <= |events| && UploaderRun(file, events[..calls - 1]).0.phase == Running
    ensures var phase := UploaderRun(file, events[..calls]).0.phase;
      && (FailsUpload(file, events[..i], events[i]) <==> i == calls - 1 && phase == Failed)
      && (CompletesUpload(file, events[..i], events[i]) <==> i == calls - 1 && phase == Succeeded)
  {
    UploaderRan(file, events, calls - 1, i);
    if i + 1 < calls {
      UploaderRan(file, events, calls - 1, i + 1);
    }
    assert events[..i + 1] == events[..i] + [events[i]];
    UploaderExit(file, events[..i], events[i]);
  }

  /** What the client sends: an error to a stranger, to a packet that is neither an acknowledgment nor an
      error, and to a first acknowledgment that is not of block 0; the next block, if there is one, on
      the awaited acknowledgment; and nothing else. */
  lemma UploaderReplies(file: seq<Byte>, heard: seq<ClientEvent>, event: ClientEvent)
    requires UploaderRun(file, heard).0.phase == Running
    ensures UploaderRun(file, []).1 == []
    ensures var n := Awaited(heard);
      var next := Increment(n);
      UploaderRun(file, heard + [event]).1 == UploaderRun(file, heard).1
        + (if FromStranger(heard, event) then [Output(ToStranger, Error(5))]
           else if event.ClientTimeout? || event.packet.Error? then []
           else if !event.packet.Ack? then [Output(ToServer, Error(4))]
           else if event.packet.number == n then
             if Block(file, next) == [] then [] else [Output(ToServer, Data(next, Block(file, next)))]
           else if n == 0 then [Output(ToServer, Error(4))]
           else [])
  {
    UploaderHistory(file, heard);
    UploaderSnoc(file, heard, event);
  }
}
