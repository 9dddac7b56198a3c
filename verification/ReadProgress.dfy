/** Patient reads that lose just the acknowledgments of freshly written blocks, file by file: every
    block but the last is sent twice, and the ending depends on the file alone. */
module ReadProgress {
  import opened Optional
  import opened Packets
  import opened Protocol
  import opened ReadEndpoints
  import opened ReadTransfer
  import opened SteadyReads

  // ----- three kinds of files -----

  /** How many full blocks the server gets acknowledged: block numbers end at 65535, and without
      masking the acknowledgment of block 128 is misread. */
  function Rounds(c: Config): (r: nat)
    ensures r <= if c.masked then 0xFFFF else 127
  {
    var full, most := |c.file| / BLOCK_SIZE, if c.masked then 0xFFFF else 127;
    if full < most then full else most
  }

  /** The server can read the acknowledgments of all blocks it gets to. */
  predicate Readable(c: Config)
  {
    c.masked || |c.file| < 128 * BLOCK_SIZE
  }

  lemma RoundFacts(c: Config, b: nat)
    requires 1 <= b <= Rounds(c)
    ensures |Block(c.file, b)| == BLOCK_SIZE && AckNumber(c.masked, b) == b
  {
    NextBlock(c.file, b);
    AckReadable(c.masked, b);
  }

  /** What follows the last round: a short block, nothing, or a block whose acknowledgment is misread. */
  lemma EndFacts(c: Config)
    ensures Deliverable(c) ==> Readable(c) && Rounds(c) < 0xFFFF && 1 <= |Block(c.file, Rounds(c) + 1)| < BLOCK_SIZE
    ensures Readable(c) && !Deliverable(c) ==> Block(c.file, Increment(Rounds(c))) == []
    ensures !Readable(c) ==>
      Rounds(c) == 127 && |Block(c.file, 128)| == BLOCK_SIZE && AckNumber(c.masked, 128) != 128
  {
    var r := Rounds(c);
    AckReadable(false, 128);
    if r < 0xFFFF {
      NextBlock(c.file, r + 1);
    }
  }

  /** Blocks 1 to k, each sent twice. */
  function Twice(k: nat): (r: seq<UInt16>)
    requires k < 0x1_0000
    ensures |r| == 2 * k && forall i | 0 <= i < |r| :: r[i] == i / 2 + 1
  {
    if k == 0 then [] else Twice(k - 1) + [k, k]
  }

  /** The rounds' blocks twice each, and from then on only the next block. */
  ghost predicate LogOk(c: Config, log: seq<UInt16>)
  {
    forall i | 0 <= i < |log| :: log[i] == if i < 2 * Rounds(c) then i / 2 + 1 else Rounds(c) + 1
  }

  /** What the server sends of a deliverable file: each block but the last twice, the last five times. */
  function FullLog(c: Config): seq<UInt16>
    requires Deliverable(c)
  {
    var last := Rounds(c) + 1;
    Twice(last - 1) + [last, last, last, last, last]
  }

  // ----- the three endings -----

  ghost predicate Delivered(c: Config, t: System)
    requires Deliverable(c)
  {
    && t.receiver.phase == Succeeded && t.receiver.written == c.file
    && t.sender == Finished(GaveUp) && t.log == FullLog(c)
  }

  /** The server stops without a word after a full block; the client has written everything up to that
      block, and fails. */
  ghost predicate Deserted(c: Config, t: System)
  {
    && t.receiver.phase == Failed && t.sender == Finished(EndOfFile) && t.log == Twice(Rounds(c))
    && Rounds(c) * BLOCK_SIZE <= |c.file| && t.receiver.written == c.file[..Rounds(c) * BLOCK_SIZE]
  }

  /** The server refuses the acknowledgment of block 128 until it gives up; the client fails on the
      error it sends. */
  ghost predicate Rejected(c: Config, t: System)
  {
    && t.receiver.phase == Failed && t.sender == Finished(GaveUp)
    && 128 * BLOCK_SIZE <= |c.file| && t.receiver.written == c.file[..128 * BLOCK_SIZE]
  }

  // ----- the stages of a transfer -----

  /** Where a transfer stands: block b is on its way for the first time, or written, or on its way
      again, or its acknowledgment is; or the short last block is written and has been sent n times,
      and in the end the server has stopped; or the server has stopped after a full block, and in the
      end the client has; or block 128 is being refused. */
  datatype Stage =
    | Arriving(b: UInt16)
    | Written(b: UInt16)
    | Repeating(b: UInt16)
    | Acknowledging(b: UInt16)
    | Finishing(n: nat)
    | Over
    | Silent
    | GivenUp
    | Refused

  /** The stages that a transfer of the file can pass. */
  ghost predicate Passes(c: Config, stage: Stage)
  {
    match stage
    case Arriving(b) => 1 <= b <= Rounds(c) || (b == Rounds(c) + 1 && (Deliverable(c) || !Readable(c)))
    case Written(b) => 1 <= b <= Rounds(c) || (b == Rounds(c) + 1 && !Readable(c))
    case Repeating(b) => 1 <= b <= Rounds(c) || (b == Rounds(c) + 1 && !Readable(c))
    case Acknowledging(b) => 1 <= b <= Rounds(c) || (b == Rounds(c) + 1 && !Readable(c))
    case Finishing(n) => Deliverable(c) && 1 <= n <= 5
    case Over => Deliverable(c)
    case Silent => Readable(c) && !Deliverable(c)
    case GivenUp => Readable(c) && !Deliverable(c)
    case Refused => !Readable(c)
  }

  /** How many blocks the server has sent by then, where the stage tells. */
  function SentBy(c: Config, stage: Stage): int
    requires !stage.Refused?
  {
    match stage
    case Arriving(b) => 2 * b - 1
    case Written(b) => 2 * b - 1
    case Repeating(b) => 2 * b
    case Acknowledging(b) => 2 * b
    case Finishing(n) => 2 * Rounds(c) + n
    case Over => 2 * Rounds(c) + 5
    case Silent => 2 * Rounds(c)
    case GivenUp => 2 * Rounds(c)
  }

  /** The server's state at a stage, and the packets on their way. */
  ghost predicate ServerAt(c: Config, s: Steady, stage: Stage)
  {
    var sender := s.system.sender;
    match stage
    case Arriving(b) =>
      sender == Waiting(b, 5) && s.toServer == multiset{} && s.toClient == multiset{Data(b, Block(c.file, b))}
    case Written(b) => sender == Waiting(b, 5) && s.toServer == multiset{} && s.toClient == multiset{}
    case Repeating(b) =>
      sender == Waiting(b, 4) && s.toServer == multiset{} && s.toClient == multiset{Data(b, Block(c.file, b))}
    case Acknowledging(b) =>
      sender == Waiting(b, 4) && s.toServer == multiset{Ack(b)} && s.toClient == multiset{}
    case Finishing(n) =>
      Rounds(c) < 0xFFFF && 1 <= n <= 5 && sender == Waiting(Rounds(c) + 1, 6 - n) && s.toServer == multiset{}
    case Over => sender == Finished(GaveUp)
    case Silent => sender == Finished(EndOfFile) && s.toClient == multiset{}
    case GivenUp => sender == Finished(EndOfFile)
    case Refused =>
      && (sender == Finished(GaveUp) || (sender.Waiting? && sender.block == 128 && sender.retry >= 1))
      && (forall p | p in s.toServer :: p == Ack(128))
      && (forall p | p in s.toClient :: p == Error(2) || p == Data(128, Block(c.file, 128)))
  }

  ghost predicate ClientAt(c: Config, s: Steady, stage: Stage)
  {
    var r := s.system.receiver;
    match stage
    case Arriving(b) => r.phase == Running && r.expected == b && Pinned(c, s.system)
    case Written(b) =>
      r.phase == Running && r.expected == Increment(b) && r.port == c.tid && s.silence < 5 && r.retry == 5 - s.silence
    case Repeating(b) => r.phase == Running && r.expected == Increment(b) && r.port == c.tid
    case Acknowledging(b) =>
      r.phase == Running && r.expected == Increment(b) && r.port == c.tid && r.retry == 5
    case Finishing(_) => r.phase == Succeeded
    case Over => r.phase == Succeeded
    case Silent =>
      r.phase == Running && r.expected == Increment(Rounds(c)) && s.silence < 5 && r.retry == 5 - s.silence
    case GivenUp => r.phase == Failed && r.expected == Increment(Rounds(c))
    case Refused =>
      && r.expected == 129 && r.port == c.tid
      && (r.phase == Failed || (r.phase == Running && Error(2) in s.toClient && s.system.sender.Waiting?))
  }

  ghost predicate At(c: Config, s: Steady, stage: Stage)
  {
    && Passes(c, stage) && ServerAt(c, s, stage) && ClientAt(c, s, stage)
    && LogOk(c, s.system.log)
    && (if stage.Refused? then |s.system.log| >= 2 * Rounds(c) else |s.system.log| == SentBy(c, stage))
  }

  /** A bound on the actions still to come, while block 128 is not being refused. */
  function Rank(c: Config, s: Steady, stage: Stage): int
  {
    var r := Rounds(c);
    match stage
    case Arriving(b) => 8 * (r - b) + 14
    case Written(b) => 8 * (r - b) + 13 - s.silence
    case Repeating(b) => 8 * (r - b) + 8
    case Acknowledging(b) => 8 * (r - b) + 7
    case Finishing(n) => 6 - n
    case Over => 0
    case Silent => 5 - s.silence
    case GivenUp => 0
    case Refused => -2
  }

  /** Block 128 and its refusal can chase each other for ever. */
  ghost predicate Cycling(c: Config, s: Steady)
  {
    && At(c, s, Refused) && s.system.receiver.phase == Running
    && Data(128, Block(c.file, 128)) in s.toClient
  }

  ghost predicate Proceeds(c: Config, s: Steady, stage: Stage, t: Steady, next: Stage)
  {
    && At(c, t, next)
    && (stage.Refused? ==> next.Refused?)
    && (!stage.Refused? ==> Rank(c, t, next) < Rank(c, s, stage))
    && (next.Refused? && !stage.Refused? ==> Cycling(c, t))
  }

  lemma LogGrows(c: Config, log: seq<UInt16>, b: UInt16)
    requires LogOk(c, log) && b == if |log| < 2 * Rounds(c) then |log| / 2 + 1 else Rounds(c) + 1
    ensures LogOk(c, log + [b])
  {
  }

  lemma OneBlock(c: Config, b: UInt16)
    requires Block(c.file, b) != []
    ensures BlocksIn([Data(b, Block(c.file, b))]) == [b]
    ensures BlocksIn([Error(2), Data(b, Block(c.file, b))]) == [b]
  {
    assert [Error(2), Data(b, Block(c.file, b))][1..] == [Data(b, Block(c.file, b))];
  }

  lemma BlockFacts(c: Config, b: UInt16)
    requires Passes(c, Arriving(b))
    ensures Block(c.file, b) != []
    ensures |Block(c.file, b)| < BLOCK_SIZE <==> b == Rounds(c) + 1 && Deliverable(c)
    ensures AckNumber(c.masked, b) == b || b == Rounds(c) + 1
  {
    EndFacts(c);
    if b <= Rounds(c) {
      RoundFacts(c, b);
    }
  }

  function FirstStage(c: Config): Stage
  {
    if Rounds(c) == 0 && !Deliverable(c) then Silent else Arriving(1)
  }

  lemma StartsArriving(c: Config)
    requires Passes(c, Arriving(1))
    ensures At(c, Start(c), Arriving(1))
  {
    BlockFacts(c, 1);
    OneBlock(c, 1);
    var p := Data(1, Block(c.file, 1));
    assert Send(c.file, 1, MAX_RETRY) == (Waiting(1, 5), [p]);
    assert multiset([p]) == multiset{p};
  }

  lemma StartsSilent(c: Config)
    requires Passes(c, Silent) && Rounds(c) == 0
    ensures At(c, Start(c), Silent)
  {
    EndFacts(c);
    assert Send(c.file, 1, MAX_RETRY) == (Finished(EndOfFile), []);
    var none: seq<Packet> := [];
    assert multiset(none) == multiset{};
  }

  lemma StartsAtFirst(c: Config)
    ensures At(c, Start(c), FirstStage(c)) && Rank(c, Start(c), FirstStage(c)) <= 8 * Rounds(c) + 6
  {
    EndFacts(c);
    if FirstStage(c).Arriving? {
      StartsArriving(c);
    } else {
      StartsSilent(c);
    }
  }

  /** The block arrives and is written; its acknowledgment is lost. */
  lemma FromArriving(c: Config, s: Steady, b: UInt16, action: Action) returns (next: Stage)
    requires At(c, s, Arriving(b)) && Possible(s, true, action)
    ensures Proceeds(c, s, Arriving(b), Advance(c, s, action), next)
  {
    BlockFacts(c, b);
    assert action == ClientHears(Data(b, Block(c.file, b)));
    next := if b == Rounds(c) + 1 && Deliverable(c) then Finishing(1) else Written(b);
    assert Addressed([Output(ToUnset, Ack(b))]) == multiset{};
  }

  /** The server sends its block again. */
  lemma SentAgain(c: Config, s: Steady, b: UInt16, retry: nat)
    requires s.system.sender == Waiting(b, retry) && retry >= 2 && Block(c.file, b) != []
    ensures var p, t := Data(b, Block(c.file, b)), Advance(c, s, ServerTimesOut);
      && t.system.sender == Waiting(b, retry - 1) && t.system.receiver == s.system.receiver
      && t.toServer == s.toServer && t.toClient == s.toClient + multiset{p}
      && t.system.log == s.system.log + [b]
  {
    OneBlock(c, b);
    var p := Data(b, Block(c.file, b));
    assert Send(c.file, b, retry - 1) == (Waiting(b, retry - 1), [p]);
    assert multiset([p]) == multiset{p};
  }

  /** Both sides wait, until the server sends the block again. */
  lemma FromWritten(c: Config, s: Steady, b: UInt16, action: Action) returns (next: Stage)
    requires At(c, s, Written(b)) && Possible(s, true, action)
    ensures Proceeds(c, s, Written(b), Advance(c, s, action), next)
  {
    if action.ServerTimesOut? {
      next := Repeating(b);
      BlockFacts(c, b);
      SentAgain(c, s, b, 5);
      LogGrows(c, s.system.log, b);
    } else {
      next := Written(b);
    }
  }

  /** The repeated block is acknowledged to the server and not written again. */
  lemma FromRepeating(c: Config, s: Steady, b: UInt16, action: Action) returns (next: Stage)
    requires At(c, s, Repeating(b)) && Possible(s, true, action)
    ensures Proceeds(c, s, Repeating(b), Advance(c, s, action), next)
  {
    BlockFacts(c, b);
    assert action == ClientHears(Data(b, Block(c.file, b)));
    next := Acknowledging(b);
    assert Decrement(Increment(b)) == b;
    assert Addressed([Output(ToServer, Ack(b))]) == multiset{Ack(b)};
  }

  /** The acknowledgment brings the next block. */
  lemma NextSent(c: Config, s: Steady, b: UInt16, retry: nat)
    requires b < 0xFFFF && s.system.sender == Waiting(b, retry) && Ack(b) in s.system.toServer
    requires |Block(c.file, b)| == BLOCK_SIZE && AckNumber(c.masked, b) == b && Block(c.file, b + 1) != []
    ensures AfterAck(c, s, Advance(c, s, ServerHears(Ack(b))), b, Waiting(b + 1, 5), [b + 1])
  {
    OneBlock(c, b + 1);
    var p := Data(b + 1, Block(c.file, b + 1));
    assert SenderStep(c.file, c.masked, s.system.sender, Arrived(Ack(b))) == (Waiting(b + 1, 5), [p]);
    assert multiset([p]) == multiset{p};
  }

  /** Or it finds none, and the server stops. */
  lemma NothingSent(c: Config, s: Steady, b: UInt16, retry: nat)
    requires s.system.sender == Waiting(b, retry) && Ack(b) in s.system.toServer
    requires |Block(c.file, b)| == BLOCK_SIZE && AckNumber(c.masked, b) == b && Block(c.file, Increment(b)) == []
    ensures AfterAck(c, s, Advance(c, s, ServerHears(Ack(b))), b, Finished(EndOfFile), [])
  {
    assert SenderStep(c.file, c.masked, s.system.sender, Arrived(Ack(b))) == (Finished(EndOfFile), []);
    var none: seq<Packet> := [];
    assert multiset(none) == multiset{};
  }

  /** What an acknowledgment of block b has made of state s, where the server has gone to `sender` and
      sent the given blocks. */
  ghost predicate AfterAck(c: Config, s: Steady, t: Steady, b: UInt16, sender: Sender, sent: seq<UInt16>)
  {
    && t.system.sender == sender && t.system.receiver == s.system.receiver
    && t.toServer == s.toServer - multiset{Ack(b)} && t.silence == 0
    && t.toClient == s.toClient + (if sent == [] then multiset{} else multiset{Data(sent[0], Block(c.file, sent[0]))})
    && t.system.log == s.system.log + sent
  }

  lemma AckedToArriving(c: Config, s: Steady, t: Steady, b: UInt16)
    requires At(c, s, Acknowledging(b)) && b <= Rounds(c) && b < 0xFFFF && Passes(c, Arriving(b + 1))
    requires AfterAck(c, s, t, b, Waiting(b + 1, 5), [b + 1])
    ensures Proceeds(c, s, Acknowledging(b), t, Arriving(b + 1))
  {
    LogGrows(c, s.system.log, b + 1);
  }

  lemma AckedToSilent(c: Config, s: Steady, t: Steady, b: UInt16)
    requires At(c, s, Acknowledging(b)) && b == Rounds(c) && Passes(c, Silent)
    requires AfterAck(c, s, t, b, Finished(EndOfFile), [])
    ensures Proceeds(c, s, Acknowledging(b), t, Silent)
  {
    assert s.system.log + [] == s.system.log;
  }

  lemma FromAcknowledging(c: Config, s: Steady, b: UInt16, action: Action) returns (next: Stage)
    requires At(c, s, Acknowledging(b)) && b <= Rounds(c) && Possible(s, true, action)
    ensures Proceeds(c, s, Acknowledging(b), Advance(c, s, action), next)
  {
    RoundFacts(c, b);
    EndFacts(c);
    assert action == ServerHears(Ack(b));
    if b == Rounds(c) && Readable(c) && !Deliverable(c) {
      next := Silent;
      NothingSent(c, s, b, 4);
      AckedToSilent(c, s, Advance(c, s, action), b);
    } else {
      next := Arriving(b + 1);
      BlockFacts(c, b + 1);
      NextSent(c, s, b, 4);
      AckedToArriving(c, s, Advance(c, s, action), b);
    }
  }

  /** The server's answer to an acknowledgment of block 128 that it cannot read. */
  lemma Refusal(c: Config, retry: nat)
    requires !Readable(c)
    ensures SenderStep(c.file, c.masked, Waiting(128, retry), Arrived(Ack(128))) ==
      (Waiting(128, 5), [Error(2), Data(128, Block(c.file, 128))])
  {
    EndFacts(c);
    var p := Data(128, Block(c.file, 128));
    assert [Error(2)] + [p] == [Error(2), p];
  }

  /** A refusal puts the error and the block on their way to the client. */
  lemma RefusedAck(c: Config, s: Steady, retry: nat)
    requires !Readable(c) && s.system.sender == Waiting(128, retry) && Ack(128) in s.system.toServer
    ensures var p, t := Data(128, Block(c.file, 128)), Advance(c, s, ServerHears(Ack(128)));
      && t.system.sender == Waiting(128, 5) && t.system.receiver == s.system.receiver
      && t.toServer == s.toServer - multiset{Ack(128)} && t.toClient == s.toClient + multiset{Error(2), p}
      && t.system.log == s.system.log + [128]
  {
    EndFacts(c);
    Refusal(c, retry);
    OneBlock(c, 128);
    assert multiset([Error(2), Data(128, Block(c.file, 128))]) == multiset{Error(2), Data(128, Block(c.file, 128))};
  }

  /** The acknowledgment of block 128 is refused. */
  lemma FromMisread(c: Config, s: Steady, action: Action)
    requires At(c, s, Acknowledging(128)) && !Readable(c) && Possible(s, true, action)
    ensures Proceeds(c, s, Acknowledging(128), Advance(c, s, action), Refused)
  {
    EndFacts(c);
    assert action == ServerHears(Ack(128));
    RefusedAck(c, s, 4);
    LogGrows(c, s.system.log, 128);
  }

  /** With the client gone, the server repeats the last block until it gives up. */
  lemma FromFinishing(c: Config, s: Steady, n: nat, action: Action) returns (next: Stage)
    requires At(c, s, Finishing(n)) && Possible(s, true, action)
    ensures Proceeds(c, s, Finishing(n), Advance(c, s, action), next)
  {
    EndFacts(c);
    assert action == ServerTimesOut;
    if n == 5 {
      next := Over;
      assert s.system.log + [] == s.system.log;
    } else {
      next := Finishing(n + 1);
      SentAgain(c, s, Rounds(c) + 1, 6 - n);
      LogGrows(c, s.system.log, Rounds(c) + 1);
    }
  }

  /** With the server gone, the client waits until it fails. */
  lemma FromSilent(c: Config, s: Steady, action: Action) returns (next: Stage)
    requires At(c, s, Silent) && Possible(s, true, action)
    ensures Proceeds(c, s, Silent, Advance(c, s, action), next)
  {
    assert action == ClientTimesOut;
    next := if s.silence == 4 then GivenUp else Silent;
  }

  lemma RefusedTimeOut(c: Config, s: Steady)
    requires At(c, s, Refused) && s.system.sender.Waiting? && s.system.receiver.phase == Failed
    ensures var t := Advance(c, s, ServerTimesOut);
      At(c, t, Refused) && t.system.receiver == s.system.receiver && t.toServer == s.toServer
      && if s.system.sender.retry == 1 then t.system.sender == Finished(GaveUp)
         else t.system.sender == Waiting(128, s.system.sender.retry - 1)
  {
    EndFacts(c);
    if s.system.sender.retry == 1 {
      assert s.system.log + [] == s.system.log;
    } else {
      SentAgain(c, s, 128, s.system.sender.retry);
      LogGrows(c, s.system.log, 128);
    }
  }

  /** The error reaches the client. */
  lemma ErrorHeard(c: Config, s: Steady)
    requires At(c, s, Refused) && Enabled(s.system, ClientHears(Error(2))) && Error(2) in s.toClient
    ensures var t := Advance(c, s, ClientHears(Error(2)));
      At(c, t, Refused) && t.system.receiver.phase == Failed && t.toServer == s.toServer
  {
    var r := s.system.receiver.(retry := MAX_RETRY, phase := Failed);
    var p := Error(2);
    assert ReceiverStep(s.system.receiver, ClientArrived(ServerHost(c.tid), p)) == (r, []);
    var t := Advance(c, s, ClientHears(p));
    assert t.system.receiver == r && t.toServer == s.toServer && t.toClient == s.toClient - multiset{p};
  }

  /** Or the block does, once more. */
  lemma RepeatHeard(c: Config, s: Steady)
    requires var p := Data(128, Block(c.file, 128));
      At(c, s, Refused) && Enabled(s.system, ClientHears(p)) && p in s.toClient
    ensures var t := Advance(c, s, ClientHears(Data(128, Block(c.file, 128))));
      At(c, t, Refused) && t.system.receiver.phase == Running && Ack(128) in t.toServer
  {
    var p := Data(128, Block(c.file, 128));
    var r := s.system.receiver.(retry := MAX_RETRY);
    var out := [Output(ToServer, Ack(128))];
    assert ReceiverStep(s.system.receiver, ClientArrived(ServerHost(c.tid), p)) == (r, out);
    assert Addressed(out) == multiset{Ack(128)};
    var t := Advance(c, s, ClientHears(p));
    assert t.system.receiver == r && t.toClient == s.toClient - multiset{p};
    assert t.toServer == s.toServer + multiset{Ack(128)};
  }

  /** A refusal leads to refusals only. */
  lemma FromRefused(c: Config, s: Steady, action: Action)
    requires At(c, s, Refused) && Possible(s, true, action)
    ensures Proceeds(c, s, Refused, Advance(c, s, action), Refused)
  {
    match action
    case ServerHears(p) =>
      RefusedAck(c, s, s.system.sender.retry);
      EndFacts(c);
      LogGrows(c, s.system.log, 128);
    case ServerTimesOut => RefusedTimeOut(c, s);
    case ClientHears(p) =>
      if p == Error(2) {
        ErrorHeard(c, s);
      } else {
        RepeatHeard(c, s);
      }
    case _ => assert false;
  }

  lemma StageStep(c: Config, s: Steady, stage: Stage, action: Action) returns (next: Stage)
    requires At(c, s, stage) && Possible(s, true, action)
    ensures Proceeds(c, s, stage, Advance(c, s, action), next)
  {
    match stage
    case Arriving(b) => next := FromArriving(c, s, b, action);
    case Written(b) => next := FromWritten(c, s, b, action);
    case Repeating(b) => next := FromRepeating(c, s, b, action);
    case Acknowledging(b) =>
      if b <= Rounds(c) {
        next := FromAcknowledging(c, s, b, action);
      } else {
        EndFacts(c);
        FromMisread(c, s, action);
        next := Refused;
      }
    case Finishing(n) => next := FromFinishing(c, s, n, action);
    case Silent => next := FromSilent(c, s, action);
    case Refused =>
      FromRefused(c, s, action);
      next := Refused;
    case _ => assert false;
  }

  lemma {:induction false} RunStage(c: Config, actions: seq<Action>, s: Steady) returns (stage: Stage)
    requires SteadyRun(c, true, actions) == Some(s)
    ensures At(c, s, stage)
    ensures !stage.Refused? ==> |actions| + Rank(c, s, stage) <= 8 * Rounds(c) + 6
    decreases |actions|
  {
    if |actions| == 0 {
      StartsAtFirst(c);
      stage := FirstStage(c);
    } else {
      var k := |actions| - 1;
      var before := SteadyRun(c, true, actions[..k]).value;
      var earlier := RunStage(c, actions[..k], before);
      stage := StageStep(c, before, earlier, actions[k]);
    }
  }

  // ----- what every run does -----

  /** A client that expects block n + 1 and has not succeeded has written n blocks. */
  lemma WrittenBlocks(c: Config, r: Receiver, n: UInt16)
    requires ReceiverOk(c, r) && r.phase != Succeeded && r.expected == Increment(n)
    ensures n * BLOCK_SIZE <= |c.file| && r.written == c.file[..n * BLOCK_SIZE]
  {
    var k := |r.written| / BLOCK_SIZE;
    assert k <= 0xFFFF && |r.written| == k * BLOCK_SIZE;
    assert k == n;
  }

  lemma StuckAt(c: Config, s: Steady, stage: Stage)
    requires At(c, s, stage) && Invariant(c, s.system)
    requires s.system.sender.Finished? && s.system.receiver.phase != Running
    ensures Deliverable(c) ==> stage == Over && s.system.log == FullLog(c)
    ensures Readable(c) && !Deliverable(c) ==> Deserted(c, s.system)
    ensures !Readable(c) ==> Rejected(c, s.system)
  {
    EndFacts(c);
    if stage.GivenUp? {
      WrittenBlocks(c, s.system.receiver, Rounds(c));
      assert s.system.log == Twice(Rounds(c));
    } else if stage.Refused? {
      WrittenBlocks(c, s.system.receiver, 128);
    }
  }

  /** In every patient run in which exactly the acknowledgments of freshly written blocks are lost, the
      server sends each full block twice, in order, as far as it gets, and then only the next block.
      A deliverable file is delivered; of any other file the client keeps the part that came, and
      fails.  Unless block 128 is refused, there are at most 8 actions a round and 6 more. */
  lemma FirstAcksLost(c: Config, actions: seq<Action>, s: Steady)
    requires SteadyRun(c, true, actions) == Some(s)
    ensures LogOk(c, s.system.log)
    ensures Deliverable(c) ==> s.system.log <= FullLog(c) && s.system.receiver.phase != Failed
    ensures Readable(c) ==> |actions| <= 8 * Rounds(c) + 6
    ensures Stuck(s) ==>
      if Deliverable(c) then Delivered(c, s.system)
      else if Readable(c) then Deserted(c, s.system)
      else Rejected(c, s.system)
  {
    var stage := RunStage(c, actions, s);
    EndFacts(c);
    if Deliverable(c) {
      LogWithin(c, s, stage);
    }
    if Stuck(s) {
      StuckEnds(c, actions, s, stage);
    }
  }

  lemma LogWithin(c: Config, s: Steady, stage: Stage)
    requires At(c, s, stage) && Deliverable(c)
    ensures s.system.log <= FullLog(c)
  {
    EndFacts(c);
    assert |s.system.log| <= 2 * Rounds(c) + 5;
  }

  lemma StuckEnds(c: Config, actions: seq<Action>, s: Steady, stage: Stage)
    requires SteadyRun(c, true, actions) == Some(s) && Stuck(s) && At(c, s, stage)
    ensures if Deliverable(c) then Delivered(c, s.system)
      else if Readable(c) then Deserted(c, s.system)
      else Rejected(c, s.system)
  {
    SteadyIsRun(c, true, actions, s);
    RunKeeps(c, actions, s.system);
    if s.system.sender.Waiting? || s.system.receiver.phase == Running {
      var action := GoesOn(s);
    }
    EndFacts(c);
    StuckAt(c, s, stage);
  }

  lemma RunSnoc(c: Config, actions: seq<Action>, s: Steady, action: Action)
    requires SteadyRun(c, true, actions) == Some(s) && Possible(s, true, action)
    ensures SteadyRun(c, true, actions + [action]) == Some(Advance(c, s, action))
  {
    assert (actions + [action])[..|actions|] == actions;
  }

  /** A run goes on until it is stuck or block 128 is refused. */
  lemma {:induction false} RunSettles(c: Config, actions: seq<Action>, s: Steady)
    returns (whole: seq<Action>, t: Steady)
    requires SteadyRun(c, true, actions) == Some(s)
    ensures actions <= whole && SteadyRun(c, true, whole) == Some(t) && (Stuck(t) || At(c, t, Refused))
    decreases 8 * Rounds(c) + 8 - |actions|
  {
    var stage := RunStage(c, actions, s);
    whole, t := actions, s;
    if !stage.Refused? {
      assert Rank(c, s, stage) >= -1;
      if action :| Possible(s, true, action) {
        RunSnoc(c, actions, s, action);
        whole, t := RunSettles(c, actions + [action], Advance(c, s, action));
      }
    }
  }

  /** What can happen after a refusal, if nothing ends before: the error reaches the client, the server
      answers what is still on its way, and times out. */
  lemma RefusalGoesOn(c: Config, actions: seq<Action>, s: Steady) returns (action: Action, t: Steady)
    requires SteadyRun(c, true, actions) == Some(s) && At(c, s, Refused) && s.system.sender.Waiting?
    ensures Possible(s, true, action) && t == Advance(c, s, action) && At(c, t, Refused)
    ensures t.system.receiver.phase == Failed
    ensures s.system.receiver.phase == Running || t.toServer < s.toServer || (
      t.toServer == s.toServer && (t.system.sender.Waiting? ==> t.system.sender.retry < s.system.sender.retry))
  {
    SteadyIsRun(c, true, actions, s);
    if s.system.receiver.phase == Running {
      ErrorHeard(c, s);
      action := ClientHears(Error(2));
    } else if s.toServer == multiset{} {
      RefusedTimeOut(c, s);
      action := ServerTimesOut;
    } else {
      var ack :| ack in s.toServer;
      action := ServerHears(ack);
      RefusedAck(c, s, s.system.sender.retry);
      FromRefused(c, s, action);
    }
    t := Advance(c, s, action);
  }

  lemma SmallerBag(a: multiset<Packet>, b: multiset<Packet>)
    requires a < b
    ensures |a| < |b|
  {
    var d := b - a;
    assert b == a + d;
    var x :| x in d;
    assert d == multiset{x} + (d - multiset{x});
  }

  lemma OverIsStuck(s: Steady)
    requires s.system.sender.Finished? && s.system.receiver.phase != Running
    ensures Stuck(s)
  {
  }

  lemma {:induction false} RefusalEnds(c: Config, actions: seq<Action>, s: Steady)
    returns (whole: seq<Action>, t: Steady)
    requires SteadyRun(c, true, actions) == Some(s) && At(c, s, Refused)
    ensures actions <= whole && SteadyRun(c, true, whole) == Some(t) && Stuck(t)
    decreases s.system.receiver.phase == Running, |s.toServer|,
              if s.system.sender.Waiting? then s.system.sender.retry else 0
  {
    if s.system.sender.Finished? {
      OverIsStuck(s);
      whole, t := actions, s;
    } else {
      var action, next := RefusalGoesOn(c, actions, s);
      RunSnoc(c, actions, s, action);
      if next.toServer < s.toServer {
        SmallerBag(next.toServer, s.toServer);
      }
      whole, t := RefusalEnds(c, actions + [action], next);
    }
  }

  /** Every patient run of every file can be continued to its end. */
  lemma RunEnds(c: Config, actions: seq<Action>, s: Steady) returns (whole: seq<Action>, t: Steady)
    requires SteadyRun(c, true, actions) == Some(s)
    ensures actions <= whole && SteadyRun(c, true, whole) == Some(t) && Stuck(t)
  {
    whole, t := RunSettles(c, actions, s);
    if !Stuck(t) {
      whole, t := RefusalEnds(c, whole, t);
    }
  }

  // ----- runs without end -----

  ghost predicate RunsWithin(c: Config, bound: nat)
  {
    forall actions :: SteadyRun(c, true, actions).Some? ==> |actions| <= bound
  }

  lemma {:induction false} ReachesCycle(c: Config, actions: seq<Action>, s: Steady, stage: Stage)
    returns (more: seq<Action>, t: Steady)
    requires SteadyRun(c, true, actions) == Some(s) && At(c, s, stage) && !stage.Refused? && !Readable(c)
    ensures SteadyRun(c, true, more) == Some(t) && Cycling(c, t)
    decreases Rank(c, s, stage) + 2
  {
    EndFacts(c);
    SteadyIsRun(c, true, actions, s);
    var action := GoesOn(s);
    var next := StageStep(c, s, stage, action);
    RunSnoc(c, actions, s, action);
    more, t := actions + [action], Advance(c, s, action);
    if !next.Refused? {
      more, t := ReachesCycle(c, more, t, next);
    }
  }

  /** The client acknowledges the block once more, and is refused once more. */
  lemma OneCycle(c: Config, actions: seq<Action>, s: Steady) returns (more: seq<Action>, t: Steady)
    requires SteadyRun(c, true, actions) == Some(s) && Cycling(c, s)
    ensures SteadyRun(c, true, more) == Some(t) && Cycling(c, t) && |more| == |actions| + 2
  {
    var hear, ack := ClientHears(Data(128, Block(c.file, 128))), ServerHears(Ack(128));
    SteadyIsRun(c, true, actions, s);
    RepeatHeard(c, s);
    RunSnoc(c, actions, s, hear);
    var u := Advance(c, s, hear);
    SteadyIsRun(c, true, actions + [hear], u);
    RefusedAck(c, u, u.system.sender.retry);
    FromRefused(c, u, ack);
    RunSnoc(c, actions + [hear], u, ack);
    more, t := actions + [hear] + [ack], Advance(c, u, ack);
  }

  lemma {:induction false} ManyCycles(c: Config, k: nat) returns (actions: seq<Action>, t: Steady)
    requires !Readable(c)
    ensures SteadyRun(c, true, actions) == Some(t) && Cycling(c, t) && |actions| >= k
  {
    if k == 0 {
      StartsAtFirst(c);
      actions, t := ReachesCycle(c, [], Start(c), FirstStage(c));
    } else {
      actions, t := ManyCycles(c, k - 1);
      actions, t := OneCycle(c, actions, t);
    }
  }

  /** Patient runs are bounded exactly for files whose acknowledgments the server can all read; where
      block 128 is refused, its repetitions can overtake the error for ever. */
  lemma PatientRunsEnd(c: Config)
    ensures Readable(c) <==> exists bound: nat :: RunsWithin(c, bound)
  {
    if Readable(c) {
      forall actions | SteadyRun(c, true, actions).Some?
        ensures |actions| <= 8 * Rounds(c) + 6
      {
        FirstAcksLost(c, actions, SteadyRun(c, true, actions).value);
      }
      assert RunsWithin(c, 8 * Rounds(c) + 6);
    } else if exists bound: nat :: RunsWithin(c, bound) {
      var bound: nat :| RunsWithin(c, bound);
      var actions, t := ManyCycles(c, bound + 1);
    }
  }

  /** A read can succeed at all exactly for deliverable files. */
  lemma ReadCanSucceed(c: Config)
    ensures Deliverable(c) <==>
      exists actions :: var r := Run(c, actions); r.Some? && r.value.receiver.phase == Succeeded
  {
    if Deliverable(c) {
      var whole, t := RunEnds(c, [], Start(c));
      FirstAcksLost(c, whole, t);
      SteadyIsRun(c, true, whole, t);
    } else if exists actions :: var r := Run(c, actions); r.Some? && r.value.receiver.phase == Succeeded {
      var actions :| var r := Run(c, actions); r.Some? && r.value.receiver.phase == Succeeded;
      ReadSafety(c, actions, Run(c, actions).value);
    }
  }
}
