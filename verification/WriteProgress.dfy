/** The write transfer over a network that delivers each packet once: every run sends each block once,
    and ends as the file's length decides. */
module WriteProgress {
  import opened Optional
  import opened Packets
  import opened Protocol
  import opened WriteEndpoints
  import opened WriteTransfer

  // ----- a network that loses nothing -----

  /** The packets still to be delivered, each once, and each side's time-outs since it last heard. */
  datatype Steady = Steady(system: System, toServer: multiset<Packet>, toClient: multiset<Packet>,
                           serverSilence: nat, clientSilence: nat)

  /** A side times out a fifth time in a row only when nothing is on its way to it and the other side
      has stopped. */
  predicate Possible(s: Steady, action: Action)
  {
    && Enabled(s.system, action)
    && match action
       case ServerHears(p) => p in s.toServer
       case ClientHears(p) => p in s.toClient
       case ServerTimesOut =>
         s.serverSilence < MAX_RETRY - 1 || (s.toServer == multiset{} && s.system.uploader.phase != Running)
       case ClientTimesOut =>
         s.clientSilence < MAX_RETRY - 1 || (s.toClient == multiset{} && s.system.upload.phase != Receiving)
       case StrangerHeard(_, _) => false
  }

  function Advance(c: Config, s: Steady, action: Action): Steady
    requires Enabled(s.system, action)
  {
    var next := Next(c, s.system, action);
    if AtServer(action) then
      var sent := UploadStep(s.system.upload, ServerEvent(action)).1;
      Steady(next, s.toServer - Delivery(action), s.toClient + multiset(sent),
             if action.ServerTimesOut? then s.serverSilence + 1 else 0, s.clientSilence)
    else
      var sent := UploaderStep(c.file, s.system.uploader, ClientEventOf(c.tid, action)).1;
      Steady(next, s.toServer + Addressed(sent), s.toClient - Delivery(action),
             s.serverSilence, if action.ClientTimesOut? then s.clientSilence + 1 else 0)
  }

  function Start(): Steady
  {
    Steady(Init(), multiset{}, multiset{Ack(0)}, 0, 0)
  }

  function SteadyRun(c: Config, actions: seq<Action>): Option<Steady>
  {
    if |actions| == 0 then Some(Start())
    else
      match SteadyRun(c, actions[..|actions| - 1])
      case None => None
      case Some(s) =>
        var action := actions[|actions| - 1];
        if Possible(s, action) then Some(Advance(c, s, action)) else None
  }

  ghost predicate Stuck(s: Steady)
  {
    forall action :: !Possible(s, action)
  }

  /** What is on its way has been sent. */
  ghost predicate Tracked(s: Steady)
  {
    && (forall p | p in s.toServer :: p in s.system.toServer)
    && (forall p | p in s.toClient :: p in s.system.toClient)
  }

  lemma AdvanceTracked(c: Config, s: Steady, action: Action)
    requires Enabled(s.system, action) && Tracked(s)
    ensures Tracked(Advance(c, s, action))
  {
    if !AtServer(action) {
      AddressedSent(UploaderStep(c.file, s.system.uploader, ClientEventOf(c.tid, action)).1);
    }
  }

  /** Such a run is a run of the unreliable network. */
  lemma {:induction false} SteadyIsRun(c: Config, actions: seq<Action>, s: Steady)
    requires SteadyRun(c, actions) == Some(s)
    ensures Run(c, actions) == Some(s.system) && Tracked(s)
    decreases |actions|
  {
    if |actions| > 0 {
      var k := |actions| - 1;
      var before := SteadyRun(c, actions[..k]).value;
      SteadyIsRun(c, actions[..k], before);
      AdvanceTracked(c, before, actions[k]);
    }
  }

  // ----- the stages of a transfer -----

  /** How many full blocks the client can send: block numbers end at 65535. */
  function Rounds(c: Config): (r: nat)
    ensures r <= 0xFFFF
  {
    var full := |c.file| / BLOCK_SIZE;
    if full < 0xFFFF then full else 0xFFFF
  }

  lemma RoundFacts(c: Config, n: nat)
    requires 1 <= n <= Rounds(c)
    ensures |Block(c.file, n)| == BLOCK_SIZE
  {
    NextBlock(c.file, n);
  }

  /** What follows the full blocks: a short one, or nothing. */
  lemma EndFacts(c: Config)
    ensures Transferable(c) ==> Rounds(c) < 0xFFFF && 1 <= |Block(c.file, Rounds(c) + 1)| < BLOCK_SIZE
    ensures !Transferable(c) ==> Block(c.file, Increment(Rounds(c))) == []
  {
    if Rounds(c) < 0xFFFF {
      NextBlock(c.file, Rounds(c) + 1);
    }
  }

  /** Block n has been stored and its acknowledgment is on its way, or it is on its way itself; or the
      short last block is, or has been stored; or the client has found no further block, and in the end
      the server has given up. */
  datatype Stage =
    | AckComing(n: UInt16)
    | BlockComing(n: UInt16)
    | LastComing
    | Saved
    | Deserted
    | Over

  /** How many blocks the client has sent by then. */
  function SentBy(c: Config, stage: Stage): nat
  {
    match stage
    case AckComing(n) => n
    case BlockComing(n) => n
    case LastComing => Rounds(c) + 1
    case Saved => Rounds(c) + 1
    case Deserted => Rounds(c)
    case Over => Rounds(c)
  }

  ghost predicate ServerAt(c: Config, s: Steady, stage: Stage)
  {
    var u := s.system.upload;
    match stage
    case AckComing(n) => u.phase == Receiving && u.expected == Increment(n) && s.toServer == multiset{}
    case BlockComing(n) =>
      u.phase == Receiving && u.expected == n && s.toServer == multiset{Data(n, Block(c.file, n))}
    case LastComing =>
      && u.phase == Receiving && Rounds(c) < 0xFFFF && u.expected == Rounds(c) + 1
      && s.toServer == multiset{Data(Rounds(c) + 1, Block(c.file, Rounds(c) + 1))}
    case Saved => u.phase == Registered
    case Deserted => u.phase == Receiving && u.expected == Increment(Rounds(c)) && s.toServer == multiset{}
    case Over => u.phase == Abandoned && u.expected == Increment(Rounds(c))
  }

  ghost predicate ClientAt(c: Config, s: Steady, stage: Stage)
  {
    var u := s.system.uploader;
    match stage
    case AckComing(n) =>
      u.phase == Running && u.counter == n && Pinned(c, s.system) && s.toClient == multiset{Ack(n)}
    case BlockComing(n) =>
      u.phase == Running && u.counter == n && u.port == c.tid && s.toClient == multiset{}
    case LastComing => u.phase == Succeeded
    case Saved => u.phase == Succeeded
    case Deserted => u.phase == Failed
    case Over => u.phase == Failed
  }

  /** Each side has as many tries left as it has not timed out since it last heard. */
  ghost predicate TriesLeft(s: Steady)
  {
    && (s.system.upload.phase == Receiving ==> s.serverSilence < 5 && s.system.upload.retry == 5 - s.serverSilence)
    && (s.system.uploader.phase == Running ==> s.clientSilence < 5 && s.system.uploader.retry == 5 - s.clientSilence)
  }

  ghost predicate At(c: Config, s: Steady, stage: Stage)
  {
    && (stage.AckComing? ==> stage.n <= Rounds(c))
    && (stage.BlockComing? ==> 1 <= stage.n <= Rounds(c))
    && (stage.LastComing? || stage.Saved? ==> Transferable(c))
    && (stage.Deserted? || stage.Over? ==> !Transferable(c))
    && ServerAt(c, s, stage) && ClientAt(c, s, stage) && TriesLeft(s)
    && |s.system.log| == SentBy(c, stage)
  }

  /** A bound on the actions still to come. */
  function Rank(c: Config, s: Steady, stage: Stage): int
  {
    var left := match stage
      case AckComing(n) => 2 * (Rounds(c) - n) + 2
      case BlockComing(n) => 2 * (Rounds(c) - n) + 3
      case LastComing => 1
      case Saved => 0
      case Deserted => 1
      case Over => 0;
    5 * left
      + (if s.system.upload.phase == Receiving then 4 - s.serverSilence else 0)
      + (if s.system.uploader.phase == Running then 4 - s.clientSilence else 0)
  }

  ghost predicate Proceeds(c: Config, s: Steady, stage: Stage, t: Steady, next: Stage)
  {
    At(c, t, next) && Rank(c, t, next) < Rank(c, s, stage)
  }

  /** The state after a time-out that leaves tries. */
  function ServerWaited(s: Steady): Steady
    requires s.system.upload.retry >= 1
  {
    var u := s.system.upload;
    s.(system := s.system.(upload := u.(retry := u.retry - 1)), serverSilence := s.serverSilence + 1)
  }

  function ClientWaited(s: Steady): Steady
    requires s.system.uploader.retry >= 1
  {
    var u := s.system.uploader;
    s.(system := s.system.(uploader := u.(retry := u.retry - 1)), clientSilence := s.clientSilence + 1)
  }

  lemma ServerWaits(c: Config, s: Steady)
    requires s.system.upload.phase == Receiving && s.system.upload.retry >= 2
    ensures Advance(c, s, ServerTimesOut) == ServerWaited(s)
  {
    var none: seq<Packet> := [];
    assert multiset(none) == multiset{};
    assert s.system.toClient + PacketsIn(none) == s.system.toClient;
  }

  lemma ClientWaits(c: Config, s: Steady)
    requires s.system.uploader.phase == Running && s.system.uploader.retry >= 2
    ensures Advance(c, s, ClientTimesOut) == ClientWaited(s)
  {
    var none: seq<Output> := [];
    assert s.system.toServer + Outgoing(none) == s.system.toServer;
    assert s.system.log + [] == s.system.log;
  }

  lemma ServerWaitedAt(c: Config, s: Steady, stage: Stage)
    requires At(c, s, stage) && s.system.upload.phase == Receiving && s.serverSilence < 4
    ensures s.system.upload.retry >= 2 && Proceeds(c, s, stage, ServerWaited(s), stage)
  {
  }

  lemma ClientWaitedAt(c: Config, s: Steady, stage: Stage)
    requires At(c, s, stage) && s.system.uploader.phase == Running && s.clientSilence < 4
    ensures s.system.uploader.retry >= 2 && Proceeds(c, s, stage, ClientWaited(s), stage)
  {
  }

  /** A time-out that is not the fifth in a row changes no stage. */
  lemma TimeOutKeeps(c: Config, s: Steady, stage: Stage, action: Action)
    requires At(c, s, stage) && Possible(s, action) && (action.ServerTimesOut? || action.ClientTimesOut?)
    requires if action.ServerTimesOut? then s.serverSilence < 4 else s.clientSilence < 4
    ensures Proceeds(c, s, stage, Advance(c, s, action), stage)
  {
    if action.ServerTimesOut? {
      ServerWaitedAt(c, s, stage);
      ServerWaits(c, s);
    } else {
      ClientWaitedAt(c, s, stage);
      ClientWaits(c, s);
    }
  }

  /** The state after the client has heard the awaited acknowledgment n and sent the next block. */
  ghost predicate BlockSentBy(c: Config, s: Steady, n: UInt16, t: Steady)
    requires n < 0xFFFF
  {
    var p := Data(n + 1, Block(c.file, n + 1));
    && t.system.upload == s.system.upload && t.toServer == s.toServer + multiset{p} && t.toClient == multiset{}
    && t.system.uploader == Uploader(n + 1, 5, c.tid, if |p.payload| < BLOCK_SIZE then Succeeded else Running)
    && t.serverSilence == s.serverSilence && t.clientSilence == 0
    && |t.system.log| == |s.system.log| + 1
  }

  /** The acknowledgment brings the next block. */
  lemma NextSent(c: Config, s: Steady, n: UInt16)
    requires s.system.uploader.phase == Running && s.system.uploader.counter == n && Pinned(c, s.system)
    requires s.toClient == multiset{Ack(n)} && Enabled(s.system, ClientHears(Ack(n)))
    requires n < 0xFFFF && Block(c.file, n + 1) != []
    ensures BlockSentBy(c, s, n, Advance(c, s, ClientHears(Ack(n))))
  {
    var p := Data(n + 1, Block(c.file, n + 1));
    var out := [Output(ToServer, p)];
    assert UploaderStep(c.file, s.system.uploader, ClientArrived(ServerHost(c.tid), Ack(n))).1 == out;
    assert BlocksIn(out) == [n + 1];
    assert Addressed(out) == multiset{p};
  }

  lemma SentBlockComing(c: Config, s: Steady, n: UInt16, t: Steady)
    requires At(c, s, AckComing(n)) && n < Rounds(c) && BlockSentBy(c, s, n, t)
    ensures Proceeds(c, s, AckComing(n), t, BlockComing(n + 1))
  {
    RoundFacts(c, n + 1);
  }

  lemma SentLastComing(c: Config, s: Steady, n: UInt16, t: Steady)
    requires At(c, s, AckComing(n)) && n == Rounds(c) && Transferable(c) && n < 0xFFFF && BlockSentBy(c, s, n, t)
    ensures Proceeds(c, s, AckComing(n), t, LastComing)
  {
    EndFacts(c);
  }

  /** Or it finds none, and the client fails. */
  lemma NothingSent(c: Config, s: Steady, n: UInt16)
    requires At(c, s, AckComing(n)) && n == Rounds(c) && !Transferable(c)
    requires Enabled(s.system, ClientHears(Ack(n)))
    ensures Proceeds(c, s, AckComing(n), Advance(c, s, ClientHears(Ack(n))), Deserted)
  {
    EndFacts(c);
    assert s.system.log + [] == s.system.log;
  }

  lemma FromAckComing(c: Config, s: Steady, n: UInt16, action: Action) returns (next: Stage)
    requires At(c, s, AckComing(n)) && Possible(s, action) && action.ClientHears?
    ensures Proceeds(c, s, AckComing(n), Advance(c, s, action), next)
  {
    assert action == ClientHears(Ack(n));
    if n < Rounds(c) {
      RoundFacts(c, n + 1);
      NextSent(c, s, n);
      SentBlockComing(c, s, n, Advance(c, s, action));
      next := BlockComing(n + 1);
    } else if Transferable(c) {
      EndFacts(c);
      NextSent(c, s, n);
      SentLastComing(c, s, n, Advance(c, s, action));
      next := LastComing;
    } else {
      NothingSent(c, s, n);
      next := Deserted;
    }
  }

  /** The block is stored and acknowledged. */
  lemma FromBlockComing(c: Config, s: Steady, n: UInt16, action: Action) returns (next: Stage)
    requires At(c, s, BlockComing(n)) && Possible(s, action) && action.ServerHears?
    ensures Proceeds(c, s, BlockComing(n), Advance(c, s, action), next)
  {
    RoundFacts(c, n);
    assert action == ServerHears(Data(n, Block(c.file, n)));
    assert multiset([Ack(n)]) == multiset{Ack(n)};
    next := AckComing(n);
  }

  /** The last block is stored, and the file registered. */
  lemma FromLastComing(c: Config, s: Steady, action: Action) returns (next: Stage)
    requires At(c, s, LastComing) && Possible(s, action) && action.ServerHears?
    ensures Proceeds(c, s, LastComing, Advance(c, s, action), next)
  {
    EndFacts(c);
    var last := Rounds(c) + 1;
    assert action == ServerHears(Data(last, Block(c.file, last)));
    next := Saved;
  }

  /** With the client gone, the server's fifth time-out in a row ends the transfer. */
  lemma FromDeserted(c: Config, s: Steady, action: Action) returns (next: Stage)
    requires At(c, s, Deserted) && Possible(s, action) && s.serverSilence == 4
    ensures Proceeds(c, s, Deserted, Advance(c, s, action), next)
  {
    assert action == ServerTimesOut;
    next := Over;
  }

  lemma StageStep(c: Config, s: Steady, stage: Stage, action: Action) returns (next: Stage)
    requires At(c, s, stage) && Possible(s, action)
    ensures Proceeds(c, s, stage, Advance(c, s, action), next)
  {
    if action.ServerTimesOut? && s.serverSilence == 4 {
      next := FromDeserted(c, s, action);
    } else if action.ServerTimesOut? || action.ClientTimesOut? {
      TimeOutKeeps(c, s, stage, action);
      next := stage;
    } else if stage.AckComing? {
      next := FromAckComing(c, s, stage.n, action);
    } else if stage.BlockComing? {
      next := FromBlockComing(c, s, stage.n, action);
    } else {
      next := FromLastComing(c, s, action);
    }
  }

  lemma {:induction false} RunStage(c: Config, actions: seq<Action>, s: Steady) returns (stage: Stage)
    requires SteadyRun(c, actions) == Some(s)
    ensures At(c, s, stage) && |actions| + Rank(c, s, stage) <= 10 * Rounds(c) + 18
    decreases |actions|
  {
    if |actions| == 0 {
      stage := AckComing(0);
    } else {
      var k := |actions| - 1;
      var before := SteadyRun(c, actions[..k]).value;
      var earlier := RunStage(c, actions[..k], before);
      stage := StageStep(c, before, earlier, actions[k]);
    }
  }

  // ----- what every run does -----

  /** The client reports success and the server has registered the whole file. */
  ghost predicate Transferred(c: Config, t: System)
    requires Transferable(c)
  {
    && t.uploader.phase == Succeeded && t.upload.phase == Registered && t.upload.written == c.file
    && t.log == FirstBlocks(Rounds(c) + 1)
  }

  /** The server has all blocks the client could send, but neither side reports success. */
  ghost predicate Unfinished(c: Config, t: System)
  {
    && t.uploader.phase == Failed && t.upload.phase == Abandoned && t.log == FirstBlocks(Rounds(c))
    && Rounds(c) * BLOCK_SIZE <= |c.file| && t.upload.written == c.file[..Rounds(c) * BLOCK_SIZE]
  }

  /** Short of both endings, the run can go on. */
  lemma GoesOn(c: Config, s: Steady, stage: Stage) returns (action: Action)
    requires At(c, s, stage) && Tracked(s) && !stage.Saved? && !stage.Over?
    ensures Possible(s, action)
  {
    match stage
    case AckComing(n) => action := ClientHears(Ack(n));
    case BlockComing(n) => action := ServerHears(Data(n, Block(c.file, n)));
    case LastComing => action := ServerHears(Data(Rounds(c) + 1, Block(c.file, Rounds(c) + 1)));
    case Deserted => action := ServerTimesOut;
  }

  lemma WrittenBlocks(c: Config, u: Upload, n: UInt16)
    requires UploadOk(c, u) && u.phase != Registered && u.expected == Increment(n)
    ensures n * BLOCK_SIZE <= |c.file| && u.written == c.file[..n * BLOCK_SIZE]
  {
    var k := |u.written| / BLOCK_SIZE;
    assert k <= 0xFFFF && |u.written| == k * BLOCK_SIZE;
    assert k == n;
  }

  /** In every run over a network that delivers each packet once, in which nobody gives up while the
      other side is still there: the client sends the blocks in order, each once, and neither side
      fails on a transferable file; the run has at most 10 actions a block; and when it is over, a
      transferable file is stored and reported as such, and any other file is neither. */
  lemma EachBlockOnce(c: Config, actions: seq<Action>, s: Steady)
    requires SteadyRun(c, actions) == Some(s)
    ensures |s.system.log| <= Rounds(c) + (if Transferable(c) then 1 else 0)
    ensures |s.system.log| < 0x1_0000 && s.system.log == FirstBlocks(|s.system.log|)
    ensures Transferable(c) ==> s.system.uploader.phase != Failed && s.system.upload.phase != Abandoned
    ensures |actions| <= 10 * Rounds(c) + 18
    ensures Stuck(s) ==> if Transferable(c) then Transferred(c, s.system) else Unfinished(c, s.system)
  {
    var stage := RunStage(c, actions, s);
    SteadyIsRun(c, actions, s);
    RunKeeps(c, actions, s.system);
    if Stuck(s) {
      if !stage.Saved? && !stage.Over? {
        var action := GoesOn(c, s, stage);
      } else if stage.Over? {
        WrittenBlocks(c, s.system.upload, Rounds(c));
      }
    }
  }

  /** Every such run can be continued to its end. */
  lemma {:induction false} RunEnds(c: Config, actions: seq<Action>, s: Steady)
    returns (whole: seq<Action>, t: Steady)
    requires SteadyRun(c, actions) == Some(s)
    ensures actions <= whole && SteadyRun(c, whole) == Some(t) && Stuck(t)
    decreases 10 * Rounds(c) + 18 - |actions|
  {
    EachBlockOnce(c, actions, s);
    if action :| Possible(s, action) {
      assert (actions + [action])[..|actions|] == actions;
      whole, t := RunEnds(c, actions + [action], Advance(c, s, action));
    } else {
      whole, t := actions, s;
    }
  }
}
