/** The read transfer as a whole: both loops joined by a network that may lose, duplicate and
    reorder packets, with strangers sending to the client as well. */
module ReadTransfer {
  import opened Bytes
  import opened Optional
  import opened Packets
  import opened Protocol
  import opened ReadEndpoints

  /** The file served, how the server reads acknowledgments, and the port of its transfer thread. */
  datatype Config = Config(file: seq<Byte>, masked: bool, tid: UInt16)

  /** Packets once sent stay in flight: delivering one never, twice or late models loss, duplication
      and reordering.  `log` lists the blocks the server has sent. */
  datatype System = System(sender: Sender, receiver: Receiver,
                           toServer: set<Packet>, toClient: set<Packet>, log: seq<UInt16>)

  /** A stranger on the server's own host is heard only after the server's port has been pinned. */
  predicate Enabled(s: System, action: Action)
  {
    match action
    case ServerTimesOut => s.sender.Waiting?
    case ServerHears(p) => s.sender.Waiting? && p in s.toServer
    case ClientTimesOut => s.receiver.phase == Running
    case ClientHears(p) => s.receiver.phase == Running && p in s.toClient
    case StrangerHeard(source, _) =>
      && s.receiver.phase == Running
      && (source.OtherHost? || (s.receiver.port != UNPINNED && source.port != s.receiver.port))
  }

  function BlocksIn(sent: seq<Packet>): seq<UInt16>
  {
    if |sent| == 0 then []
    else (if sent[0].Data? then [sent[0].block] else []) + BlocksIn(sent[1..])
  }

  function AfterServer(s: System, step: (Sender, seq<Packet>)): System
  {
    s.(sender := step.0, toClient := s.toClient + PacketsIn(step.1), log := s.log + BlocksIn(step.1))
  }

  /** What may reach the server: an acknowledgment sent to the unset address may or may not. */
  function Outgoing(sent: seq<Output>): set<Packet>
  {
    set o | o in sent && o.destination != ToStranger :: o.packet
  }

  lemma OutgoingConcat(a: seq<Output>, b: seq<Output>)
    ensures Outgoing(a + b) == Outgoing(a) + Outgoing(b)
  {
  }

  function AfterClient(s: System, step: (Receiver, seq<Output>)): System
  {
    s.(receiver := step.0, toServer := s.toServer + Outgoing(step.1))
  }

  function Next(c: Config, s: System, action: Action): System
    requires Enabled(s, action)
  {
    if AtServer(action) then AfterServer(s, SenderStep(c.file, c.masked, s.sender, ServerEvent(action)))
    else AfterClient(s, ReceiverStep(s.receiver, ClientEventOf(c.tid, action)))
  }

  function Init(c: Config): System
  {
    var (sender, sent) := Send(c.file, 1, MAX_RETRY);
    System(sender, INITIAL_RECEIVER, {}, PacketsIn(sent), BlocksIn(sent))
  }

  /** The system after the given actions; None when one of them was not enabled. */
  function Run(c: Config, actions: seq<Action>): Option<System>
  {
    if |actions| == 0 then Some(Init(c))
    else
      match Run(c, actions[..|actions| - 1])
      case None => None
      case Some(s) =>
        var action := actions[|actions| - 1];
        if Enabled(s, action) then Some(Next(c, s, action)) else None
  }

  // ----- safety -----

  /** Files that a read can deliver: the last block is short, the block numbers fit 16 bits, and the
      server can read the acknowledgment of every earlier block. */
  predicate Deliverable(c: Config)
  {
    |c.file| % BLOCK_SIZE != 0 && |c.file| < (if c.masked then 0xFFFF else 128) * BLOCK_SIZE
  }

  /** The client holds the first blocks of the file, or all of it. */
  ghost predicate ReceiverOk(c: Config, r: Receiver)
  {
    if r.phase == Succeeded then
      r.written == c.file && Deliverable(c)
    else
      && |r.written| % BLOCK_SIZE == 0 && |r.written| <= 0xFFFF * BLOCK_SIZE
      && r.written <= c.file
      && r.expected == (|r.written| / BLOCK_SIZE + 1) % 0x1_0000
  }

  /** The client has accepted block n. */
  ghost predicate Accepted(r: Receiver, n: UInt16)
  {
    r.phase == Succeeded || n * BLOCK_SIZE <= |r.written|
  }

  /** The server waits for a block the client is at: it has accepted all before it and none after. */
  ghost predicate SenderOk(c: Config, s: System)
  {
    match s.sender
    case Waiting(b, retry) =>
      && retry > 0 && b >= 1 && Block(c.file, b) != [] && (!c.masked ==> b <= 128)
      && (b - 1) * BLOCK_SIZE <= |s.receiver.written| <= b * BLOCK_SIZE
    case Finished(outcome) => outcome == Acknowledged ==> s.receiver.phase == Succeeded
  }

  ghost predicate InFlightOk(c: Config, s: System)
  {
    && (forall p | p in s.toClient && p.Data? ::
          && p.block >= 1 && p.payload == Block(c.file, p.block) && p.payload != [] && (!c.masked ==> p.block <= 128)
          && (s.sender.Waiting? ==> p.block <= s.sender.block))
    && (forall p | p in s.toServer && p.Ack? :: Accepted(s.receiver, p.number))
  }

  /** The pinned port is the server's. */
  ghost predicate Pinned(c: Config, s: System)
  {
    s.receiver.port == UNPINNED || s.receiver.port == c.tid
  }

  ghost predicate Invariant(c: Config, s: System)
  {
    ReceiverOk(c, s.receiver) && SenderOk(c, s) && InFlightOk(c, s)
  }

  /** The numbers a waiting server takes for its own block's are exactly that block's. */
  lemma AckMatches(masked: bool, number: UInt16, b: UInt16)
    requires AckNumber(masked, number) == b && (!masked ==> b <= 128)
    ensures number == b && (!masked ==> b < 128)
  {
    if masked {
      MaskedReadsBack(number);
    } else {
      UnmaskedReadsBack(number);
    }
  }

  /** A server reads block b's own acknowledgment rightly unless it reads unmasked and b is 128. */
  lemma AckReadable(masked: bool, b: UInt16)
    requires !masked ==> b <= 128
    ensures AckNumber(masked, b) == b <==> masked || b < 128
  {
    if masked {
      MaskedReadsBack(b);
    } else {
      UnmaskedReadsBack(b);
    }
  }

  lemma InitInvariant(c: Config)
    ensures Invariant(c, Init(c))
  {
  }

  /** What `Send` does next keeps the invariant when the client has accepted all blocks before. */
  lemma SendKeeps(c: Config, s: System, b: UInt16, retry: nat, sent0: seq<Packet>)
    requires Invariant(c, s) && s.sender.Waiting? && s.sender.block <= b
    requires (b - 1) * BLOCK_SIZE <= |s.receiver.written| <= b * BLOCK_SIZE && (!c.masked ==> b <= 128)
    requires forall p | p in sent0 :: p.Error?
    ensures var (next, more) := Send(c.file, b, retry);
      Invariant(c, AfterServer(s, (next, sent0 + more)))
  {
    var (next, more) := Send(c.file, b, retry);
    forall p | p in sent0 + more && p.Data?
      ensures p in more
    {
    }
  }

  lemma ServerTimesOutKeeps(c: Config, s: System)
    requires Invariant(c, s) && s.sender.Waiting?
    ensures Invariant(c, Next(c, s, ServerTimesOut))
  {
    SendKeeps(c, s, s.sender.block, s.sender.retry - 1, []);
    var sent := Send(c.file, s.sender.block, s.sender.retry - 1).1;
    assert [] + sent == sent;
  }

  lemma ServerHearsKeeps(c: Config, s: System, p: Packet)
    requires Invariant(c, s) && Enabled(s, ServerHears(p))
    ensures Invariant(c, Next(c, s, ServerHears(p)))
  {
    var b := s.sender.block;
    if !p.Ack? || AckNumber(c.masked, p.number) != b {
      SendKeeps(c, s, b, MAX_RETRY, [Error(2)]);
    } else {
      AckMatches(c.masked, p.number, b);
      NextBlock(c.file, b);
      assert Accepted(s.receiver, b);
      if |Block(c.file, b)| < BLOCK_SIZE {
      } else if b == 0xFFFF {
        assert Block(c.file, 0) == [];
      } else {
        var sent := Send(c.file, b + 1, MAX_RETRY).1;
        SendKeeps(c, s, b + 1, MAX_RETRY, []);
        assert [] + sent == sent;
      }
    }
  }

  /** Accepting the expected block extends the prefix, or completes it. */
  lemma AcceptKeeps(c: Config, r: Receiver, block: UInt16)
    requires ReceiverOk(c, r) && r.phase == Running && block == r.expected >= 1
    requires Block(c.file, block) != [] && (!c.masked ==> block <= 128)
    ensures |r.written| == (block - 1) * BLOCK_SIZE
    ensures ReceiverOk(c, Accept(r, Data(block, Block(c.file, block))).0)
  {
    var n := |r.written| / BLOCK_SIZE + 1;
    assert n == block;
    NextBlock(c.file, n);
  }

  lemma FreshDataKeeps(c: Config, s: System, p: Packet)
    requires Invariant(c, s) && Enabled(s, ClientHears(p)) && p.Data? && Pinned(c, s)
    requires p.block == s.receiver.expected
    ensures Invariant(c, Next(c, s, ClientHears(p)))
  {
    AcceptKeeps(c, s.receiver, p.block);
    NextBlock(c.file, p.block);
    var r := s.receiver.(retry := MAX_RETRY, port := c.tid);
    var r' := Accept(r, p).0;
    assert ReceiverStep(s.receiver, ClientArrived(ServerHost(c.tid), p)).0 == r';
    assert r'.written == s.receiver.written + Block(c.file, p.block);
    assert Accepted(r', p.block);
    assert s.sender.Waiting? ==> p.block == s.sender.block;
  }

  lemma DuplicateKeeps(c: Config, s: System, p: Packet)
    requires Invariant(c, s) && Enabled(s, ClientHears(p)) && p.Data? && Pinned(c, s)
    requires p.block != s.receiver.expected
    ensures Invariant(c, Next(c, s, ClientHears(p)))
  {
    assert Accepted(s.receiver, Decrement(s.receiver.expected));
  }

  lemma ClientStepKeeps(c: Config, s: System, action: Action)
    requires Invariant(c, s) && Enabled(s, action)
    requires action.ClientTimesOut? || action.ClientHears? || action.StrangerHeard?
    requires Pinned(c, s)
    ensures Invariant(c, Next(c, s, action))
  {
    if action.ClientHears? && action.packet.Data? {
      if action.packet.block == s.receiver.expected {
        FreshDataKeeps(c, s, action.packet);
      } else {
        DuplicateKeeps(c, s, action.packet);
      }
    }
  }

  lemma StepKeeps(c: Config, s: System, action: Action)
    requires Invariant(c, s) && Pinned(c, s) && Enabled(s, action)
    ensures Invariant(c, Next(c, s, action)) && Pinned(c, Next(c, s, action))
  {
    match action
    case ServerTimesOut => ServerTimesOutKeeps(c, s);
    case ServerHears(p) => ServerHearsKeeps(c, s, p);
    case _ => ClientStepKeeps(c, s, action);
  }

  lemma {:induction false} RunKeeps(c: Config, actions: seq<Action>, s: System)
    requires Run(c, actions) == Some(s)
    ensures Invariant(c, s) && Pinned(c, s)
    decreases |actions|
  {
    if |actions| == 0 {
      InitInvariant(c);
    } else {
      var before := actions[..|actions| - 1];
      RunKeeps(c, before, Run(c, before).value);
      StepKeeps(c, Run(c, before).value, actions[|actions| - 1]);
    }
  }

  /** In every run, whatever the network does: the client's file is a prefix of the server's; success
      on either side means the client has it all; and the two never drift more than a block apart. */
  lemma ReadSafety(c: Config, actions: seq<Action>, s: System)
    requires Run(c, actions) == Some(s)
    ensures s.receiver.written <= c.file
    ensures s.receiver.phase == Succeeded ==> s.receiver.written == c.file && Deliverable(c)
    ensures s.sender == Finished(Acknowledged) ==> s.receiver.phase == Succeeded
    ensures s.sender.Waiting? ==>
      (s.sender.block - 1) * BLOCK_SIZE <= |s.receiver.written| <= s.sender.block * BLOCK_SIZE
  {
    RunKeeps(c, actions, s);
  }

  // ----- the loops in a run -----

  lemma {:induction false} BlocksConcat(a: seq<Packet>, b: seq<Packet>)
    ensures BlocksIn(a + b) == BlocksIn(a) + BlocksIn(b)
  {
    if |a| == 0 {
      assert a + b == b;
    } else {
      BlocksConcat(a[1..], b);
      assert (a + b)[1..] == a[1..] + b && (a + b)[0] == a[0];
    }
  }

  lemma ServerFollows(c: Config, events: seq<Received>, event: Received, before: System)
    requires SenderRun(c.file, c.masked, events).0 == before.sender && before.sender.Waiting?
    requires var sent := SenderRun(c.file, c.masked, events).1;
      BlocksIn(sent) == before.log && PacketsIn(sent) == before.toClient
    ensures var (sender, sent) := SenderRun(c.file, c.masked, events + [event]);
      var after := AfterServer(before, SenderStep(c.file, c.masked, before.sender, event));
      sender == after.sender && BlocksIn(sent) == after.log && PacketsIn(sent) == after.toClient
  {
    SenderSnoc(c.file, c.masked, events, event);
    var sent, more := SenderRun(c.file, c.masked, events).1, SenderStep(c.file, c.masked, before.sender, event).1;
    BlocksConcat(sent, more);
    PacketsConcat(sent, more);
  }

  lemma ClientFollows(events: seq<ClientEvent>, event: ClientEvent, before: System)
    requires ReceiverRun(events).0 == before.receiver && before.receiver.phase == Running
    requires Outgoing(ReceiverRun(events).1) == before.toServer
    ensures var (receiver, sent) := ReceiverRun(events + [event]);
      var after := AfterClient(before, ReceiverStep(before.receiver, event));
      receiver == after.receiver && Outgoing(sent) == after.toServer
  {
    ReceiverSnoc(events, event);
    OutgoingConcat(ReceiverRun(events).1, ReceiverStep(before.receiver, event).1);
  }

  /** Each side's state in a run, and what it has sent, are those its own loop reaches on the receive
      calls of the run. */
  lemma {:induction false} LoopsFollow(c: Config, actions: seq<Action>, s: System)
    requires Run(c, actions) == Some(s)
    ensures var (sender, sent) := SenderRun(c.file, c.masked, ServerEvents(actions));
      sender == s.sender && BlocksIn(sent) == s.log && PacketsIn(sent) == s.toClient
    ensures var (receiver, sent) := ReceiverRun(ClientEvents(c.tid, actions));
      receiver == s.receiver && Outgoing(sent) == s.toServer
    decreases |actions|
  {
    if |actions| == 0 {
      assert Outgoing([]) == {};
    } else {
      var k := |actions| - 1;
      var before, action := Run(c, actions[..k]).value, actions[k];
      LoopsFollow(c, actions[..k], before);
      if AtServer(action) {
        ServerFollows(c, ServerEvents(actions[..k]), ServerEvent(action), before);
        assert ClientEvents(c.tid, actions) == ClientEvents(c.tid, actions[..k]);
      } else {
        ClientFollows(ClientEvents(c.tid, actions[..k]), ClientEventOf(c.tid, action), before);
        assert ServerEvents(actions) == ServerEvents(actions[..k]);
      }
    }
  }

  /** Both loops on the receive calls of any run: they send just what the run has in flight; what the
      client's loop has written is a prefix of the server's file, and all of it when it succeeds. */
  method PlayRead(c: Config, actions: seq<Action>, ghost s: System)
    returns (sent: seq<Packet>, written: seq<Byte>, outputs: seq<Output>, phase: Phase)
    requires Run(c, actions) == Some(s)
    ensures BlocksIn(sent) == s.log && PacketsIn(sent) == s.toClient && Outgoing(outputs) == s.toServer
    ensures written == s.receiver.written && phase == s.receiver.phase
    ensures written <= c.file && (phase == Succeeded ==> written == c.file && Deliverable(c))
  {
    var calls, retry, running;
    ghost var sender;
    LoopsFollow(c, actions, s);
    ReadSafety(c, actions, s);
    sent, calls, retry, running, sender := HandleReadRequest(c.file, c.masked, ServerEvents(actions));
    SenderStays(c.file, c.masked, ServerEvents(actions), calls);
    written, outputs, calls, phase := HandleRRQRequest(ClientEvents(c.tid, actions));
    ReceiverStays(ClientEvents(c.tid, actions), calls);
  }
}
