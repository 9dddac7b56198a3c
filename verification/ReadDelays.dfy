/** Reads over the same network with impatient sides, which may time out while packets are on their
    way: delays alone can defeat exactly the files longer than one block. */
module ReadDelays {
  import opened Optional
  import opened Packets
  import opened Protocol
  import opened ReadEndpoints
  import opened ReadTransfer
  import opened SteadyReads

  // ----- longer files: a run that fails -----

  lemma FirstBlockFull(c: Config)
    requires |c.file| > BLOCK_SIZE
    ensures |Block(c.file, 1)| == BLOCK_SIZE && Block(c.file, 2) != [] && AckNumber(c.masked, 1) == 1
  {
    NextBlock(c.file, 1);
    NextBlock(c.file, 2);
    AckReadable(c.masked, 1);
  }

  /** The client has written the first block; the server is at `sender`; and these packets, all of them
      sent before, are on their way. */
  ghost predicate Past(c: Config, s: Steady, sender: Sender, toServer: multiset<Packet>, toClient: multiset<Packet>)
  {
    && s.system.sender == sender && s.toServer == toServer && s.toClient == toClient
    && s.system.receiver.phase == Running && s.system.receiver.expected == 2 && s.system.receiver.port == c.tid
    && (forall p | p in toServer :: p in s.system.toServer)
    && (forall p | p in toClient :: p in s.system.toClient)
  }

  lemma FirstArrives(c: Config) returns (t: Steady)
    requires |c.file| > BLOCK_SIZE
    ensures var arrival := ClientHears(Data(1, Block(c.file, 1)));
      Possible(Start(c), false, arrival) && t == Advance(c, Start(c), arrival)
    ensures Past(c, t, Waiting(1, 5), multiset{}, multiset{})
  {
    FirstBlockFull(c);
    assert Addressed([Output(ToUnset, Ack(1))]) == multiset{};
    t := Advance(c, Start(c), ClientHears(Data(1, Block(c.file, 1))));
  }

  lemma ServerRepeats(c: Config, s: Steady, retry: nat, toClient: multiset<Packet>) returns (t: Steady)
    requires Past(c, s, Waiting(1, retry), multiset{}, toClient) && retry >= 2 && Block(c.file, 1) != []
    ensures Possible(s, false, ServerTimesOut) && t == Advance(c, s, ServerTimesOut)
    ensures Past(c, t, Waiting(1, retry - 1), multiset{}, toClient + multiset{Data(1, Block(c.file, 1))})
  {
    t := Advance(c, s, ServerTimesOut);
    assert multiset([Data(1, Block(c.file, 1))]) == multiset{Data(1, Block(c.file, 1))};
    SentIsTracked(c, s, ServerTimesOut);
  }

  lemma ClientRepeats(c: Config, s: Steady, sender: Sender, toServer: multiset<Packet>, toClient: multiset<Packet>)
    returns (t: Steady)
    requires Past(c, s, sender, toServer, toClient) && Data(1, Block(c.file, 1)) in toClient
    ensures var repeat := ClientHears(Data(1, Block(c.file, 1)));
      Possible(s, false, repeat) && t == Advance(c, s, repeat)
    ensures Past(c, t, sender, toServer + multiset{Ack(1)}, toClient - multiset{Data(1, Block(c.file, 1))})
  {
    var repeat := ClientHears(Data(1, Block(c.file, 1)));
    t := Advance(c, s, repeat);
    assert Addressed([Output(ToServer, Ack(1))]) == multiset{Ack(1)};
    SentIsTracked(c, s, repeat);
  }

  lemma AckAccepted(c: Config, s: Steady, retry: nat, toServer: multiset<Packet>) returns (t: Steady)
    requires |c.file| > BLOCK_SIZE
    requires Past(c, s, Waiting(1, retry), toServer, multiset{}) && Ack(1) in toServer
    ensures Possible(s, false, ServerHears(Ack(1))) && t == Advance(c, s, ServerHears(Ack(1)))
    ensures Past(c, t, Waiting(2, 5), toServer - multiset{Ack(1)}, t.toClient)
  {
    FirstBlockFull(c);
    t := Advance(c, s, ServerHears(Ack(1)));
    SentIsTracked(c, s, ServerHears(Ack(1)));
  }

  /** An acknowledgment out of turn is answered with an error and the block once more. */
  lemma RefusedStep(c: Config)
    requires |c.file| > BLOCK_SIZE
    ensures SenderStep(c.file, c.masked, Waiting(2, 5), Arrived(Ack(1))) ==
      (Waiting(2, 5), [Error(2), Data(2, Block(c.file, 2))])
  {
    FirstBlockFull(c);
    var p := Data(2, Block(c.file, 2));
    assert Send(c.file, 2, MAX_RETRY) == (Waiting(2, 5), [p]);
    assert [Error(2)] + [p] == [Error(2), p];
  }

  lemma AckRefused(c: Config, s: Steady, toServer: multiset<Packet>, toClient: multiset<Packet>) returns (t: Steady)
    requires |c.file| > BLOCK_SIZE
    requires Past(c, s, Waiting(2, 5), toServer, toClient) && Ack(1) in toServer
    ensures Possible(s, false, ServerHears(Ack(1))) && t == Advance(c, s, ServerHears(Ack(1)))
    ensures Past(c, t, Waiting(2, 5), toServer - multiset{Ack(1)}, t.toClient) && Error(2) in t.toClient
  {
    RefusedStep(c);
    t := Advance(c, s, ServerHears(Ack(1)));
    SentIsTracked(c, s, ServerHears(Ack(1)));
    assert Error(2) in multiset([Error(2), Data(2, Block(c.file, 2))]);
  }

  lemma ErrorEnds(c: Config, s: Steady, sender: Sender, toServer: multiset<Packet>) returns (t: Steady)
    requires Past(c, s, sender, toServer, s.toClient) && Error(2) in s.toClient
    ensures Possible(s, false, ClientHears(Error(2))) && t == Advance(c, s, ClientHears(Error(2)))
    ensures t.system.receiver.phase == Failed
  {
    t := Advance(c, s, ClientHears(Error(2)));
  }

  lemma Onward(c: Config, actions: seq<Action>, s: Steady, action: Action) returns (more: seq<Action>)
    requires SteadyRun(c, false, actions) == Some(s) && Possible(s, false, action)
    requires ClientTimesOut !in actions && action != ClientTimesOut
    ensures SteadyRun(c, false, more) == Some(Advance(c, s, action)) && ClientTimesOut !in more
  {
    more := actions + [action];
    assert more[..|actions|] == actions;
  }

  lemma BlockSentTwice(c: Config) returns (actions: seq<Action>, t: Steady)
    requires |c.file| > BLOCK_SIZE
    ensures SteadyRun(c, false, actions) == Some(t) && ClientTimesOut !in actions
    ensures Past(c, t, Waiting(1, 4), multiset{}, multiset{Data(1, Block(c.file, 1))})
  {
    FirstBlockFull(c);
    var s := FirstArrives(c);
    actions := Onward(c, [], Start(c), ClientHears(Data(1, Block(c.file, 1))));
    t := ServerRepeats(c, s, 5, multiset{});
    actions := Onward(c, actions, s, ServerTimesOut);
  }

  lemma BlockSentThrice(c: Config) returns (actions: seq<Action>, t: Steady)
    requires |c.file| > BLOCK_SIZE
    ensures SteadyRun(c, false, actions) == Some(t) && ClientTimesOut !in actions
    ensures var p := Data(1, Block(c.file, 1)); Past(c, t, Waiting(1, 3), multiset{}, multiset{p, p})
  {
    FirstBlockFull(c);
    var s;
    actions, s := BlockSentTwice(c);
    t := ServerRepeats(c, s, 4, multiset{Data(1, Block(c.file, 1))});
    actions := Onward(c, actions, s, ServerTimesOut);
  }

  lemma AcknowledgedTwice(c: Config, before: seq<Action>, s: Steady) returns (actions: seq<Action>, t: Steady)
    requires SteadyRun(c, false, before) == Some(s) && ClientTimesOut !in before
    requires var p := Data(1, Block(c.file, 1)); Past(c, s, Waiting(1, 3), multiset{}, multiset{p, p})
    ensures SteadyRun(c, false, actions) == Some(t) && ClientTimesOut !in actions
    ensures Past(c, t, Waiting(1, 3), multiset{Ack(1), Ack(1)}, multiset{})
  {
    var p := Data(1, Block(c.file, 1));
    var s1 := ClientRepeats(c, s, Waiting(1, 3), multiset{}, multiset{p, p});
    actions := Onward(c, before, s, ClientHears(p));
    t := ClientRepeats(c, s1, Waiting(1, 3), multiset{Ack(1)}, multiset{p});
    actions := Onward(c, actions, s1, ClientHears(p));
  }

  lemma SecondAckFatal(c: Config, before: seq<Action>, s: Steady) returns (actions: seq<Action>, t: Steady)
    requires |c.file| > BLOCK_SIZE
    requires SteadyRun(c, false, before) == Some(s) && ClientTimesOut !in before
    requires Past(c, s, Waiting(1, 3), multiset{Ack(1), Ack(1)}, multiset{})
    ensures SteadyRun(c, false, actions) == Some(t) && ClientTimesOut !in actions
    ensures t.system.receiver.phase == Failed
  {
    var s1 := AckAccepted(c, s, 3, multiset{Ack(1), Ack(1)});
    actions := Onward(c, before, s, ServerHears(Ack(1)));
    var s2 := AckRefused(c, s1, multiset{Ack(1)}, s1.toClient);
    actions := Onward(c, actions, s1, ServerHears(Ack(1)));
    t := ErrorEnds(c, s2, Waiting(2, 5), s2.toServer);
    actions := Onward(c, actions, s2, ClientHears(Error(2)));
  }

  /** Delays alone can defeat a read that needs a second block, though the client never times out: the
      server times out twice while its block is on the way, the client acknowledges both repetitions,
      and the second acknowledgment, out of turn by then, makes the server send an error. */
  lemma LongFileFails(c: Config) returns (actions: seq<Action>, s: Steady)
    requires |c.file| > BLOCK_SIZE
    ensures SteadyRun(c, false, actions) == Some(s) && ClientTimesOut !in actions
    ensures s.system.receiver.phase == Failed
  {
    actions, s := BlockSentThrice(c);
    actions, s := AcknowledgedTwice(c, actions, s);
    actions, s := SecondAckFatal(c, actions, s);
  }

  // ----- files of one block: no run fails -----

  /** Only block 1 and its acknowledgment are ever on their way. */
  ghost predicate OneBlockOnly(c: Config, s: Steady)
  {
    var r := s.system.receiver;
    && (forall p | p in s.toServer :: p == Ack(1))
    && (forall p | p in s.toClient :: p == Data(1, Block(c.file, 1)))
    && (s.system.sender.Waiting? ==> s.system.sender.block == 1)
    && r.phase != Failed
    && (r.phase == Running ==>
          (r.expected == 1 && r.port == UNPINNED) || (r.expected == 2 && r.port == c.tid))
  }

  lemma ShortFacts(c: Config)
    requires |c.file| <= BLOCK_SIZE
    ensures Block(c.file, 2) == [] && AckNumber(c.masked, 1) == 1
  {
    BlockAt(c.file, 2);
    AckReadable(c.masked, 1);
  }

  lemma ServerStaysAtOne(c: Config, s: Steady, action: Action)
    requires |c.file| <= BLOCK_SIZE && OneBlockOnly(c, s)
    requires Possible(s, false, action) && AtServer(action)
    ensures OneBlockOnly(c, Advance(c, s, action))
  {
    ShortFacts(c);
  }

  lemma ClientStaysAtOne(c: Config, s: Steady, action: Action)
    requires |c.file| <= BLOCK_SIZE && OneBlockOnly(c, s)
    requires Possible(s, false, action) && action.ClientHears?
    ensures OneBlockOnly(c, Advance(c, s, action))
  {
    assert Addressed([Output(ToServer, Ack(1))]) == multiset{Ack(1)};
    assert Addressed([Output(ToUnset, Ack(1))]) == multiset{};
  }

  lemma {:induction false} ShortFileKeeps(c: Config, actions: seq<Action>, s: Steady)
    requires |c.file| <= BLOCK_SIZE
    requires SteadyRun(c, false, actions) == Some(s) && ClientTimesOut !in actions
    ensures OneBlockOnly(c, s)
    decreases |actions|
  {
    if |actions| > 0 {
      var k := |actions| - 1;
      var before := SteadyRun(c, false, actions[..k]).value;
      ShortFileKeeps(c, actions[..k], before);
      assert actions[k] in actions;
      if AtServer(actions[k]) {
        ServerStaysAtOne(c, before, actions[k]);
      } else {
        ClientStaysAtOne(c, before, actions[k]);
      }
    }
  }

  /** Delays alone, without a time-out of the client's, can make it fail exactly on files of more than
      512 bytes. */
  lemma DelaysCanFail(c: Config)
    ensures |c.file| > BLOCK_SIZE <==>
      exists actions, s ::
        SteadyRun(c, false, actions) == Some(s) && ClientTimesOut !in actions && s.system.receiver.phase == Failed
  {
    if |c.file| > BLOCK_SIZE {
      var actions, s := LongFileFails(c);
    } else {
      forall actions, s | SteadyRun(c, false, actions) == Some(s) && ClientTimesOut !in actions
        ensures s.system.receiver.phase != Failed
      {
        ShortFileKeeps(c, actions, s);
      }
    }
  }
}
