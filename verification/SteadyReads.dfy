/** The read transfer over a network that delivers each packet once and loses nothing but the
    acknowledgments of freshly written blocks, which go to the client's unset address member. */
module SteadyReads {
  import opened Optional
  import opened Protocol
  import opened ReadEndpoints
  import opened ReadTransfer

  /** `toServer` and `toClient` hold the packets still to be delivered, each once; `silence` counts the
      client's time-outs since anything else happened. */
  datatype Steady = Steady(system: System, toServer: multiset<Packet>, toClient: multiset<Packet>, silence: nat)

  /** A packet is on its way to a side that still listens. */
  predicate Pending(s: Steady)
  {
    || (s.system.sender.Waiting? && s.toServer != multiset{})
    || (s.system.receiver.phase == Running && s.toClient != multiset{})
  }

  /** Both sides wait equally long.  So a patient side times out only when no packet is on its way, and
      the client never five times in a row while the server still waits. */
  predicate Possible(s: Steady, patient: bool, action: Action)
  {
    && Enabled(s.system, action)
    && match action
       case ServerHears(p) => p in s.toServer
       case ClientHears(p) => p in s.toClient
       case ServerTimesOut => patient ==> !Pending(s)
       case ClientTimesOut =>
         patient ==> !Pending(s) && (s.system.sender.Waiting? ==> s.silence < MAX_RETRY - 1)
       case StrangerHeard(_, _) => false
  }

  function Advance(c: Config, s: Steady, action: Action): Steady
    requires Enabled(s.system, action)
  {
    var next := Next(c, s.system, action);
    if AtServer(action) then
      var sent := SenderStep(c.file, c.masked, s.system.sender, ServerEvent(action)).1;
      Steady(next, s.toServer - Delivery(action), s.toClient + multiset(sent), 0)
    else
      var sent := ReceiverStep(s.system.receiver, ClientEventOf(c.tid, action)).1;
      Steady(next, s.toServer + Addressed(sent), s.toClient - Delivery(action),
             if action.ClientTimesOut? then s.silence + 1 else 0)
  }

  function Start(c: Config): Steady
  {
    Steady(Init(c), multiset{}, multiset(Send(c.file, 1, MAX_RETRY).1), 0)
  }

  function SteadyRun(c: Config, patient: bool, actions: seq<Action>): Option<Steady>
  {
    if |actions| == 0 then Some(Start(c))
    else
      match SteadyRun(c, patient, actions[..|actions| - 1])
      case None => None
      case Some(s) =>
        var action := actions[|actions| - 1];
        if Possible(s, patient, action) then Some(Advance(c, s, action)) else None
  }

  ghost predicate Stuck(s: Steady)
  {
    forall action :: !Possible(s, true, action)
  }

  /** Such a run is a run of the unreliable network, and what it has on its way has been sent. */
  lemma {:induction false} SteadyIsRun(c: Config, patient: bool, actions: seq<Action>, s: Steady)
    requires SteadyRun(c, patient, actions) == Some(s)
    ensures Run(c, actions) == Some(s.system)
    ensures (forall p | p in s.toServer :: p in s.system.toServer)
    ensures (forall p | p in s.toClient :: p in s.system.toClient)
    decreases |actions|
  {
    if |actions| > 0 {
      var k := |actions| - 1;
      var before := SteadyRun(c, patient, actions[..k]).value;
      SteadyIsRun(c, patient, actions[..k], before);
      SentIsTracked(c, before, actions[k]);
    }
  }

  lemma SentIsTracked(c: Config, s: Steady, action: Action)
    requires Enabled(s.system, action)
    requires (forall p | p in s.toServer :: p in s.system.toServer)
    requires (forall p | p in s.toClient :: p in s.system.toClient)
    ensures var t := Advance(c, s, action);
      && (forall p | p in t.toServer :: p in t.system.toServer)
      && (forall p | p in t.toClient :: p in t.system.toClient)
  {
    if !AtServer(action) {
      AddressedSent(ReceiverStep(s.system.receiver, ClientEventOf(c.tid, action)).1);
    }
  }

  /** A run can go on until both sides have stopped. */
  lemma GoesOn(s: Steady) returns (action: Action)
    requires (forall p | p in s.toServer :: p in s.system.toServer)
    requires (forall p | p in s.toClient :: p in s.system.toClient)
    requires s.system.sender.Waiting? || s.system.receiver.phase == Running
    ensures Possible(s, true, action)
  {
    if s.system.sender.Waiting? && s.toServer != multiset{} {
      var p :| p in s.toServer;
      action := ServerHears(p);
    } else if s.system.receiver.phase == Running && s.toClient != multiset{} {
      var p :| p in s.toClient;
      action := ClientHears(p);
    } else if s.system.sender.Waiting? {
      action := ServerTimesOut;
    } else {
      action := ClientTimesOut;
    }
  }
}
