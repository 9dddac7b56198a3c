/** Uploads over a network that may duplicate packets: a block delivered twice can make the client fail,
    exactly when the file has a full block. */
module WriteDuplicates {
  import opened Optional
  import opened Packets
  import opened Protocol
  import opened WriteEndpoints
  import opened WriteTransfer

  /** Neither time-outs nor strangers. */
  ghost predicate OnlyDeliveries(actions: seq<Action>)
  {
    forall a | a in actions :: a.ServerHears? || a.ClientHears?
  }

  // ----- files with a full block: a run that fails -----

  lemma Onward(c: Config, actions: seq<Action>, s: System, action: Action) returns (more: seq<Action>)
    requires Run(c, actions) == Some(s) && Enabled(s, action)
    requires OnlyDeliveries(actions) && (action.ServerHears? || action.ClientHears?)
    ensures Run(c, more) == Some(Next(c, s, action)) && OnlyDeliveries(more) && action in more
  {
    more := actions + [action];
    RunSnoc(c, actions, s, action);
  }

  /** The first block has been stored, and its packet is still in flight. */
  lemma FirstBlockStored(c: Config) returns (actions: seq<Action>, s: System)
    requires |c.file| >= BLOCK_SIZE
    ensures Run(c, actions) == Some(s) && OnlyDeliveries(actions)
    ensures AtAck(c, s, 1) && s.uploader.port == c.tid && Data(1, Block(c.file, 1)) in s.toServer
  {
    NextBlock(c.file, 1);
    assert c.file[..0] == [];
    assert AtAck(c, Init(), 0);
    BlockSent(c, Init(), 0);
    actions := Onward(c, [], Init(), ClientHears(Ack(0)));
    var t := Next(c, Init(), ClientHears(Ack(0)));
    BlockStored(c, t, 0);
    actions := Onward(c, actions, t, ServerHears(Data(1, Block(c.file, 1))));
    s := Next(c, t, ServerHears(Data(1, Block(c.file, 1))));
  }

  /** Delivered again, the block is answered with an error. */
  lemma RepeatRefused(c: Config, s: System)
    requires AtAck(c, s, 1) && Data(1, Block(c.file, 1)) in s.toServer
    ensures var repeat := ServerHears(Data(1, Block(c.file, 1)));
      && Enabled(s, repeat)
      && Next(c, s, repeat).uploader == s.uploader && Error(0) in Next(c, s, repeat).toClient
  {
    assert Error(0) in [Error(0)];
  }

  lemma DuplicateFails(c: Config) returns (actions: seq<Action>, s: System)
    requires |c.file| >= BLOCK_SIZE
    ensures Run(c, actions) == Some(s) && OnlyDeliveries(actions)
    ensures ClientHears(Error(0)) in actions && s.uploader.phase == Failed
  {
    var t;
    actions, t := FirstBlockStored(c);
    RepeatRefused(c, t);
    var repeat := ServerHears(Data(1, Block(c.file, 1)));
    actions := Onward(c, actions, t, repeat);
    t := Next(c, t, repeat);
    actions := Onward(c, actions, t, ClientHears(Error(0)));
    s := Next(c, t, ClientHears(Error(0)));
  }

  // ----- shorter files: no such error is ever sent -----

  /** Only block 1 is ever sent, and the server stops on it. */
  ghost predicate OneBlockOnly(c: Config, s: System)
  {
    && (forall p | p in s.toServer && p.Data? :: p.block == 1 && |p.payload| < BLOCK_SIZE)
    && Error(0) !in s.toClient
    && (s.upload.phase == Receiving ==> s.upload.expected == 1)
    && (s.uploader.phase == Running ==> s.uploader.counter == 0)
  }

  lemma ShortFileKeeps(c: Config, s: System, action: Action)
    requires |c.file| < BLOCK_SIZE && OneBlockOnly(c, s) && Enabled(s, action)
    ensures OneBlockOnly(c, Next(c, s, action))
  {
    BlockAt(c.file, 1);
  }

  lemma {:induction false} ShortFileRun(c: Config, actions: seq<Action>, s: System)
    requires |c.file| < BLOCK_SIZE && Run(c, actions) == Some(s)
    ensures OneBlockOnly(c, s) && ClientHears(Error(0)) !in actions
    decreases |actions|
  {
    if |actions| > 0 {
      var k := |actions| - 1;
      var before := Run(c, actions[..k]).value;
      ShortFileRun(c, actions[..k], before);
      ShortFileKeeps(c, before, actions[k]);
      assert actions[k] != ClientHears(Error(0));
      assert actions == actions[..k] + [actions[k]];
    }
  }

  /** A block delivered twice can make the client fail, with nothing lost or late, exactly on files of
      512 bytes or more. */
  lemma DuplicatesCanFail(c: Config)
    ensures |c.file| >= BLOCK_SIZE <==>
      exists actions, s ::
        Run(c, actions) == Some(s) && OnlyDeliveries(actions)
        && ClientHears(Error(0)) in actions && s.uploader.phase == Failed
  {
    if |c.file| >= BLOCK_SIZE {
      var actions, s := DuplicateFails(c);
    } else {
      forall actions, s | Run(c, actions) == Some(s)
        ensures ClientHears(Error(0)) !in actions
      {
        ShortFileRun(c, actions, s);
      }
    }
  }
}
