/** The write transfer as a whole, over the same kind of network. */
module WriteTransfer {
  import opened Bytes
  import opened Optional
  import opened Packets
  import opened Protocol
  import opened WriteEndpoints

  /** The client's file, and the port of the server's transfer thread. */
  datatype Config = Config(file: seq<Byte>, tid: UInt16)

  /** `log` lists the blocks the client has sent. */
  datatype System = System(uploader: Uploader, upload: Upload,
                           toServer: set<Packet>, toClient: set<Packet>, log: seq<UInt16>)

  predicate Enabled(s: System, action: Action)
  {
    match action
    case ServerTimesOut => s.upload.phase == Receiving
    case ServerHears(p) => s.upload.phase == Receiving && p in s.toServer
    case ClientTimesOut => s.uploader.phase == Running
    case ClientHears(p) => s.uploader.phase == Running && p in s.toClient
    case StrangerHeard(source, _) =>
      && s.uploader.phase == Running
      && (source.OtherHost? || (s.uploader.port != UNPINNED && source.port != s.uploader.port))
  }

  function BlocksIn(sent: seq<Output>): seq<UInt16>
  {
    if |sent| == 0 then []
    else (if sent[0].packet.Data? then [sent[0].packet.block] else []) + BlocksIn(sent[1..])
  }

  function AfterServer(s: System, step: (Upload, seq<Packet>)): System
  {
    s.(upload := step.0, toClient := s.toClient + PacketsIn(step.1))
  }

  function Outgoing(sent: seq<Output>): set<Packet>
  {
    set o | o in sent && o.destination == ToServer :: o.packet
  }

  lemma OutgoingConcat(a: seq<Output>, b: seq<Output>)
    ensures Outgoing(a + b) == Outgoing(a) + Outgoing(b)
  {
  }

  function AfterClient(s: System, step: (Uploader, seq<Output>)): System
  {
    s.(uploader := step.0,
       toServer := s.toServer + Outgoing(step.1),
       log := s.log + BlocksIn(step.1))
  }

  function Next(c: Config, s: System, action: Action): System
    requires Enabled(s, action)
  {
    if AtServer(action) then AfterServer(s, UploadStep(s.upload, ServerEvent(action)))
    else AfterClient(s, UploaderStep(c.file, s.uploader, ClientEventOf(c.tid, action)))
  }

  function Init(): System
  {
    System(INITIAL_UPLOADER, INITIAL_UPLOAD, {}, {Ack(0)}, [])
  }

  /** The system after the given actions; None when one of them was not enabled. */
  function Run(c: Config, actions: seq<Action>): Option<System>
  {
    if |actions| == 0 then Some(Init())
    else
      match Run(c, actions[..|actions| - 1])
      case None => None
      case Some(s) =>
        var action := actions[|actions| - 1];
        if Enabled(s, action) then Some(Next(c, s, action)) else None
  }

  // ----- safety -----

  /** The blocks 1 to n in order, each once. */
  function FirstBlocks(n: nat): (r: seq<UInt16>)
    requires n < 0x1_0000
    ensures |r| == n && forall i | 0 <= i < n :: r[i] == i + 1
  {
    seq(n, i requires 0 <= i < n => i + 1)
  }

  /** The server holds the first blocks of the file, or has registered all of it. */
  ghost predicate UploadOk(c: Config, u: Upload)
  {
    if u.phase == Registered then u.written == c.file && |c.file| % BLOCK_SIZE != 0
    else
      && |u.written| % BLOCK_SIZE == 0 && |u.written| <= 0xFFFF * BLOCK_SIZE
      && u.written <= c.file
      && u.expected == (|u.written| / BLOCK_SIZE + 1) % 0x1_0000
  }

  /** The server has accepted block n. */
  ghost predicate Stored(u: Upload, n: nat)
  {
    u.phase == Registered || n * BLOCK_SIZE <= |u.written|
  }

  /** n is the number of blocks the client has sent: 1 to n, of which the server has accepted at least
      the first n - 1, and no others. */
  ghost predicate ClientOk(c: Config, s: System, n: nat)
  {
    && n < 0x1_0000 && s.log == FirstBlocks(n)
    && (s.uploader.phase == Running ==> s.uploader.counter == n)
    && (n >= 1 ==> Stored(s.upload, n - 1) && Block(c.file, n) != [])
    && |s.upload.written| <= n * BLOCK_SIZE
    && (s.uploader.phase == Succeeded ==> n >= 1 && |Block(c.file, n)| < BLOCK_SIZE)
    && (s.upload.phase == Registered ==> n >= 1 && |c.file| < n * BLOCK_SIZE)
  }

  ghost predicate InFlightOk(c: Config, s: System, n: nat)
  {
    && (forall p | p in s.toServer && p.Data? ::
          1 <= p.block <= n && p.payload == Block(c.file, p.block) && p.payload != [])
    && (forall p | p in s.toClient && p.Ack? :: p.number <= n && Stored(s.upload, p.number))
  }

  ghost predicate Pinned(c: Config, s: System)
  {
    s.uploader.port == UNPINNED || s.uploader.port == c.tid
  }

  ghost predicate Invariant(c: Config, s: System)
  {
    var n := |s.log|;
    UploadOk(c, s.upload) && ClientOk(c, s, n) && InFlightOk(c, s, n) && Pinned(c, s)
  }

  lemma InitInvariant(c: Config)
    ensures Invariant(c, Init())
  {
  }

  /** Accepting the expected block extends the prefix, or completes and registers it. */
  lemma StoreKeeps(c: Config, u: Upload, block: UInt16)
    requires UploadOk(c, u) && u.phase == Receiving && block == u.expected >= 1
    requires Block(c.file, block) != []
    ensures |u.written| == (block - 1) * BLOCK_SIZE
    ensures var u' := UploadStep(u, Arrived(Data(block, Block(c.file, block)))).0;
      && UploadOk(c, u') && Stored(u', block) && |u'.written| <= block * BLOCK_SIZE
      && (u'.phase == Registered ==> |c.file| < block * BLOCK_SIZE)
      && (forall k: nat | Stored(u, k) :: Stored(u', k))
  {
    var n := |u.written| / BLOCK_SIZE + 1;
    assert n == block;
    NextBlock(c.file, n);
  }

  lemma ServerDataKeeps(c: Config, s: System, p: Packet)
    requires Invariant(c, s) && Enabled(s, ServerHears(p)) && p.Data? && p.block == s.upload.expected
    ensures Invariant(c, Next(c, s, ServerHears(p)))
  {
    var n := |s.log|;
    StoreKeeps(c, s.upload, p.block);
    NextBlock(c.file, p.block);
    var u' := UploadStep(s.upload, Arrived(p)).0;
    assert p.block <= n && (n >= 1 ==> (n - 1) * BLOCK_SIZE <= |s.upload.written|);
    assert p.block == n;
  }

  lemma ServerStepKeeps(c: Config, s: System, action: Action)
    requires Invariant(c, s) && Enabled(s, action) && (action.ServerTimesOut? || action.ServerHears?)
    ensures Invariant(c, Next(c, s, action))
  {
    if action.ServerHears? && action.heard.Data? && action.heard.block == s.upload.expected {
      ServerDataKeeps(c, s, action.heard);
    }
  }

  /** The awaited acknowledgment makes the client send block n + 1, if there is one. */
  lemma ClientAckKeeps(c: Config, s: System, p: Packet)
    requires Invariant(c, s) && Enabled(s, ClientHears(p)) && p.Ack? && p.number == s.uploader.counter
    ensures Invariant(c, Next(c, s, ClientHears(p)))
  {
    var n := |s.log|;
    var next := Increment(s.uploader.counter);
    var t := Next(c, s, ClientHears(p));
    if Block(c.file, next) == [] {
      assert t.log == s.log + [];
    } else {
      assert next == n + 1;
      var out := [Output(ToServer, Data(next, Block(c.file, next)))];
      assert BlocksIn(out) == [next];
      assert t.log == FirstBlocks(n) + [next] == FirstBlocks(n + 1);
      NextBlock(c.file, next);
      assert s.upload.phase != Registered;
    }
  }

  lemma ClientStepKeeps(c: Config, s: System, action: Action)
    requires Invariant(c, s) && Enabled(s, action)
    requires action.ClientTimesOut? || action.ClientHears? || action.StrangerHeard?
    ensures Invariant(c, Next(c, s, action))
  {
    if action.ClientHears? && action.packet.Ack? && action.packet.number == s.uploader.counter {
      ClientAckKeeps(c, s, action.packet);
    } else {
      assert Next(c, s, action).log == s.log;
    }
  }

  lemma StepKeeps(c: Config, s: System, action: Action)
    requires Invariant(c, s) && Enabled(s, action)
    ensures Invariant(c, Next(c, s, action))
  {
    if AtServer(action) {
      ServerStepKeeps(c, s, action);
    } else {
      ClientStepKeeps(c, s, action);
    }
  }

  lemma {:induction false} RunKeeps(c: Config, actions: seq<Action>, s: System)
    requires Run(c, actions) == Some(s)
    ensures Invariant(c, s)
    decreases |actions|
  {
    if |actions| == 0 {
      InitInvariant(c);
    } else {
      var before := actions[..|actions| - 1];
      RunKeeps(c, before, Run(c, before).value);
      StepKeeps(c, Run(c, before).value, actions[|actions| - 1]);
    }
  }

  /** Files with a short last block, reachable with 16-bit block numbers. */
  predicate Transferable(c: Config)
  {
    |c.file| % BLOCK_SIZE != 0 && |c.file| < 0xFFFF * BLOCK_SIZE
  }

  /** The file without its short last block. */
  function FullBlocks(c: Config): seq<Byte>
  {
    c.file[..|c.file| / BLOCK_SIZE * BLOCK_SIZE]
  }

  /** The client's success tells that the server lacks at most the last block. */
  lemma SuccessMeans(c: Config, s: System)
    requires Invariant(c, s) && s.uploader.phase == Succeeded
    ensures Transferable(c) && (s.upload.written == FullBlocks(c) || s.upload.written == c.file)
  {
    NextBlock(c.file, |s.log|);
  }

  /** The server expects the block the client sent last, or the next one. */
  lemma CountersAgree(c: Config, s: System)
    requires Invariant(c, s) && s.uploader.phase == Running && s.upload.phase == Receiving
    ensures s.upload.expected == s.uploader.counter || s.upload.expected == Increment(s.uploader.counter)
  {
    var n := |s.log|;
    assert n >= 1 ==> (n - 1) * BLOCK_SIZE <= |s.upload.written|;
  }

  /** In every run: the server's file is a prefix of the client's, and complete when it is registered;
      a running client waits for block c while the server expects c or c + 1; the client sends each
      block at most once; and when the client reports success, the server lacks at most the last. */
  lemma WriteSafety(c: Config, actions: seq<Action>, s: System)
    requires Run(c, actions) == Some(s)
    ensures s.upload.written <= c.file
    ensures s.upload.phase == Registered ==> s.upload.written == c.file
    ensures s.uploader.phase == Running && s.upload.phase == Receiving ==>
      s.upload.expected == s.uploader.counter || s.upload.expected == Increment(s.uploader.counter)
    ensures forall i, j | 0 <= i < j < |s.log| :: s.log[i] != s.log[j]
    ensures s.uploader.phase == Succeeded ==>
      && Transferable(c)
      && (s.upload.written == FullBlocks(c) || s.upload.written == c.file)
  {
    RunKeeps(c, actions, s);
    if s.uploader.phase == Succeeded {
      SuccessMeans(c, s);
    } else if s.uploader.phase == Running && s.upload.phase == Receiving {
      CountersAgree(c, s);
    }
  }

  // ----- the loops in a run -----

  lemma {:induction false} BlocksConcat(a: seq<Output>, b: seq<Output>)
    ensures BlocksIn(a + b) == BlocksIn(a) + BlocksIn(b)
  {
    if |a| == 0 {
      assert a + b == b;
    } else {
      BlocksConcat(a[1..], b);
      assert (a + b)[1..] == a[1..] + b && (a + b)[0] == a[0];
    }
  }

  lemma ServerFollows(events: seq<Received>, event: Received, before: System)
    requires UploadRun(events).0 == before.upload && before.upload.phase == Receiving
    requires PacketsIn(UploadRun(events).1) == before.toClient
    ensures var (u, sent) := UploadRun(events + [event]);
      var after := AfterServer(before, UploadStep(before.upload, event));
      u == after.upload && PacketsIn(sent) == after.toClient
  {
    UploadSnoc(events, event);
    PacketsConcat(UploadRun(events).1, UploadStep(before.upload, event).1);
  }

  lemma ClientFollows(file: seq<Byte>, events: seq<ClientEvent>, event: ClientEvent, before: System)
    requires UploaderRun(file, events).0 == before.uploader && before.uploader.phase == Running
    requires var sent := UploaderRun(file, events).1;
      BlocksIn(sent) == before.log && Outgoing(sent) == before.toServer
    ensures var (u, sent) := UploaderRun(file, events + [event]);
      var after := AfterClient(before, UploaderStep(file, before.uploader, event));
      u == after.uploader && BlocksIn(sent) == after.log && Outgoing(sent) == after.toServer
  {
    UploaderSnoc(file, events, event);
    var sent, more := UploaderRun(file, events).1, UploaderStep(file, before.uploader, event).1;
    BlocksConcat(sent, more);
    OutgoingConcat(sent, more);
  }

  /** Each side's state in a run, and what it has sent, are those its own loop reaches on the receive
      calls of the run. */
  lemma {:induction false} LoopsFollow(c: Config, actions: seq<Action>, s: System)
    requires Run(c, actions) == Some(s)
    ensures var (u, sent) := UploadRun(ServerEvents(actions));
      u == s.upload && PacketsIn(sent) == s.toClient
    ensures var (u, sent) := UploaderRun(c.file, ClientEvents(c.tid, actions));
      u == s.uploader && BlocksIn(sent) == s.log && Outgoing(sent) == s.toServer
    decreases |actions|
  {
    if |actions| == 0 {
      assert PacketsIn([Ack(0)]) == {Ack(0)};
      assert Outgoing([]) == {};
    } else {
      var k := |actions| - 1;
      var before, action := Run(c, actions[..k]).value, actions[k];
      LoopsFollow(c, actions[..k], before);
      if AtServer(action) {
        ServerFollows(ServerEvents(actions[..k]), ServerEvent(action), before);
        assert ClientEvents(c.tid, actions) == ClientEvents(c.tid, actions[..k]);
      } else {
        ClientFollows(c.file, ClientEvents(c.tid, actions[..k]), ClientEventOf(c.tid, action), before);
        assert ServerEvents(actions) == ServerEvents(actions[..k]);
      }
    }
  }

  /** Both loops on the receive calls of any run: they send just what the run has in flight; what the
      server's loop has written is a prefix of the client's file, and all of it when registered; the
      client's loop sends no block twice, and reports success only when the server lacks at most the
      last block. */
  method PlayWrite(c: Config, actions: seq<Action>, ghost s: System)
    returns (written: seq<Byte>, replies: seq<Packet>, uploaded: UploadPhase, sent: seq<Output>, phase: Phase)
    requires Run(c, actions) == Some(s)
    ensures written == s.upload.written && uploaded == s.upload.phase && PacketsIn(replies) == s.toClient
    ensures BlocksIn(sent) == s.log && Outgoing(sent) == s.toServer && phase == s.uploader.phase
    ensures written <= c.file && (uploaded == Registered ==> written == c.file)
    ensures forall i, j | 0 <= i < j < |BlocksIn(sent)| :: BlocksIn(sent)[i] != BlocksIn(sent)[j]
    ensures phase == Succeeded ==> written == FullBlocks(c) || written == c.file
  {
    var calls;
    LoopsFollow(c, actions, s);
    WriteSafety(c, actions, s);
    written, replies, calls, uploaded := HandleWriteRequest(ServerEvents(actions));
    UploadStays(ServerEvents(actions), calls);
    sent, calls, phase := HandleWRQRequest(c.file, ClientEvents(c.tid, actions));
    UploaderStays(c.file, ClientEvents(c.tid, actions), calls);
  }

  // ----- both endings happen -----

  /** A quiet network delivers the acknowledgments and blocks 1 to n. */
  function Schedule(c: Config, n: UInt16): seq<Action>
    decreases n, c
  {
    if n == 0 then []
    else Schedule(c, n - 1) + [ClientHears(Ack(n - 1)), ServerHears(Data(n, Block(c.file, n)))]
  }

  /** Block n has been stored and its acknowledgment is on its way. */
  ghost predicate AtAck(c: Config, s: System, n: UInt16)
  {
    && s.uploader.phase == Running && s.uploader.counter == n && Pinned(c, s)
    && s.upload.phase == Receiving && s.upload.expected == Increment(n)
    && n * BLOCK_SIZE <= |c.file| && s.upload.written == c.file[..n * BLOCK_SIZE]
    && Ack(n) in s.toClient
  }

  lemma BlockSent(c: Config, s: System, n: UInt16)
    requires AtAck(c, s, n) && n < 0xFFFF && Block(c.file, n + 1) != []
    ensures Enabled(s, ClientHears(Ack(n)))
    ensures var t := Next(c, s, ClientHears(Ack(n)));
      && t.upload == s.upload && Data(n + 1, Block(c.file, n + 1)) in t.toServer && Pinned(c, t)
      && t.uploader.counter == n + 1
      && t.uploader.phase == (if |Block(c.file, n + 1)| < BLOCK_SIZE then Succeeded else Running)
  {
    var out := Output(ToServer, Data(n + 1, Block(c.file, n + 1)));
    assert out in [out];
  }

  lemma BlockStored(c: Config, s: System, n: UInt16)
    requires s.upload.phase == Receiving && s.upload.expected == n + 1
    requires n < 0xFFFF && n * BLOCK_SIZE <= |c.file| && s.upload.written == c.file[..n * BLOCK_SIZE]
    requires Data(n + 1, Block(c.file, n + 1)) in s.toServer
    ensures var p := ServerHears(Data(n + 1, Block(c.file, n + 1)));
      && Enabled(s, p)
      && var t := Next(c, s, p);
      && t.uploader == s.uploader
      && if |Block(c.file, n + 1)| < BLOCK_SIZE then t.upload.phase == Registered && t.upload.written == c.file
         else Pinned(c, s) && s.uploader.phase == Running && s.uploader.counter == n + 1 ==> AtAck(c, t, n + 1)
  {
    NextBlock(c.file, n + 1);
    assert Ack(n + 1) in [Ack(n + 1)];
  }

  lemma RunSnoc(c: Config, actions: seq<Action>, s: System, action: Action)
    requires Run(c, actions) == Some(s) && Enabled(s, action)
    ensures Run(c, actions + [action]) == Some(Next(c, s, action))
  {
    assert (actions + [action])[..|actions|] == actions;
  }

  lemma {:induction false} QuietRun(c: Config, n: UInt16) returns (s: System)
    requires n < 0xFFFF && n * BLOCK_SIZE <= |c.file|
    ensures Run(c, Schedule(c, n)) == Some(s) && AtAck(c, s, n)
    decreases n
  {
    if n == 0 {
      s := Init();
      assert c.file[..0] == [];
    } else {
      var r := QuietRun(c, n - 1);
      var send, store := ClientHears(Ack(n - 1)), ServerHears(Data(n, Block(c.file, n)));
      NextBlock(c.file, n);
      BlockSent(c, r, n - 1);
      RunSnoc(c, Schedule(c, n - 1), r, send);
      var t := Next(c, r, send);
      BlockStored(c, t, n - 1);
      RunSnoc(c, Schedule(c, n - 1) + [send], t, store);
      s := Next(c, t, store);
      assert Schedule(c, n) == Schedule(c, n - 1) + [send] + [store];
    }
  }

  /** A server that hears nothing more gives up. */
  lemma {:induction false} ServerStarves(c: Config, actions: seq<Action>, s: System)
    returns (whole: seq<Action>, t: System)
    requires Run(c, actions) == Some(s) && s.upload.phase == Receiving
    ensures Run(c, whole) == Some(t) && t.upload.phase == Abandoned
    ensures t.upload.written == s.upload.written && t.uploader == s.uploader
    decreases s.upload.retry
  {
    RunSnoc(c, actions, s, ServerTimesOut);
    whole, t := actions + [ServerTimesOut], Next(c, s, ServerTimesOut);
    if t.upload.phase == Receiving {
      whole, t := ServerStarves(c, whole, t);
    }
  }

  /** The client's success leaves it open whether the last block arrived: for every transferable file
      there is a run where it is lost, so that the server gives up waiting and registers nothing, and
      one where it is stored. */
  lemma LastBlockOpen(c: Config) returns (lost: seq<Action>, stored: seq<Action>, s: System, t: System)
    requires Transferable(c)
    ensures Run(c, lost) == Some(s) && s.uploader.phase == Succeeded
    ensures s.upload.phase == Abandoned && s.upload.written == FullBlocks(c) != c.file
    ensures Run(c, stored) == Some(t) && t.uploader.phase == Succeeded
    ensures t.upload.phase == Registered && t.upload.written == c.file
  {
    var last := |c.file| / BLOCK_SIZE;
    var send, store := ClientHears(Ack(last)), ServerHears(Data(last + 1, Block(c.file, last + 1)));
    var r := QuietRun(c, last);
    NextBlock(c.file, last + 1);
    BlockSent(c, r, last);
    RunSnoc(c, Schedule(c, last), r, send);
    var sent, u := Schedule(c, last) + [send], Next(c, r, send);
    lost, s := ServerStarves(c, sent, u);
    BlockStored(c, u, last);
    RunSnoc(c, sent, u, store);
    stored, t := sent + [store], Next(c, u, store);
  }

  /** A write can succeed at all exactly for transferable files. */
  lemma WriteCanSucceed(c: Config)
    ensures Transferable(c) <==>
      exists actions :: var r := Run(c, actions); r.Some? && r.value.uploader.phase == Succeeded
  {
    if Transferable(c) {
      var lost, stored, s, t := LastBlockOpen(c);
      assert Run(c, lost).Some?;
    } else if exists actions :: var r := Run(c, actions); r.Some? && r.value.uploader.phase == Succeeded {
      var actions :| var r := Run(c, actions); r.Some? && r.value.uploader.phase == Succeeded;
      WriteSafety(c, actions, Run(c, actions).value);
    }
  }
}
