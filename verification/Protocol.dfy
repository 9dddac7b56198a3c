/** What all transfer loops share: packets, receive calls, 16-bit block numbers. */
module Protocol {
  import opened Bytes
  import opened Packets

  const MAX_RETRY: nat := 5

  datatype Packet =
    | Data(block: UInt16, payload: seq<Byte>)
    | Ack(number: UInt16)
    | Error(code: UInt16)
    | Other

  /** What the receivers read in a packet: the opcode, and a block number, acknowledged number or error
      code; opcodes 3, 4 and 5 as in section 5 of RFC 1350. */
  function ParsePacket(received: seq<Byte>): Packet
    requires |received| >= 4
  {
    var opcode, number := Masked(received[0], received[1]), Masked(received[2], received[3]);
    if opcode == 3 then Data(number, received[4..])
    else if opcode == 4 then Ack(number)
    else if opcode == 5 then Error(number)
    else Other
  }

  /** The first two bytes decide what it is. */
  lemma KindByOpcode(received: seq<Byte>)
    requires |received| >= 4
    ensures ParsePacket(received).Data? <==> received[0] == 0 && received[1] == 3
    ensures ParsePacket(received).Ack? <==> received[0] == 0 && received[1] == 4
    ensures ParsePacket(received).Error? <==> received[0] == 0 && received[1] == 5
  {
  }

  /** What the builders write is read back. */
  lemma PacketsReadBack(n: UInt16, data: seq<Byte>)
    ensures ParsePacket(BigEndian(OPCODE_DATA) + BigEndian(n) + data) == Data(n, data)
    ensures ParsePacket(BigEndian(OPCODE_ACK) + BigEndian(n)) == Ack(n)
    ensures ParsePacket(BigEndian(OPCODE_ERROR) + BigEndian(n) + data) == Error(n)
  {
    MaskedReadsBack(n);
    assert (BigEndian(OPCODE_DATA) + BigEndian(n) + data)[4..] == data;
  }

  /** What one receive call returns: nothing before the time-out, or a packet. */
  datatype Received = Timeout | Arrived(packet: Packet)

  /** Who sent a packet, as the client tells: the server's host on some port, or another host. */
  datatype Source = ServerHost(port: UInt16) | OtherHost

  datatype ClientEvent = ClientTimeout | ClientArrived(source: Source, packet: Packet)

  datatype Phase = Running | Succeeded | Failed

  /** The client's transfer identifier while no packet has come yet. */
  const UNPINNED: int := -1

  /** Where the client sends: to the pinned server port, back to a stranger, or to the address member
      that nothing ever sets. */
  datatype Destination = ToServer | ToStranger | ToUnset

  datatype Output = Output(destination: Destination, packet: Packet)

  function Increment(x: UInt16): UInt16
  {
    if x == 0xFFFF then 0 else x + 1
  }

  function Decrement(x: UInt16): UInt16
  {
    if x == 0 then 0xFFFF else x - 1
  }

  /** How many of the receive calls brought a packet. */
  function Arrivals(events: seq<Received>): nat
  {
    if |events| == 0 then 0
    else Arrivals(events[..|events| - 1]) + (if events[|events| - 1].Arrived? then 1 else 0)
  }

  /** After `calls` receive calls with `retry` tries left: k packets have allowed at most 5(k + 1) calls,
      counting those tries. */
  ghost predicate CallsBounded(events: seq<Received>, calls: nat, retry: nat)
  {
    calls <= |events| && calls + retry <= 5 * (Arrivals(events[..calls]) + 1)
  }

  lemma CallsStayBounded(events: seq<Received>, calls: nat, retry: nat)
    requires CallsBounded(events, calls, retry) && calls < |events| && retry > 0
    ensures CallsBounded(events, calls + 1, if events[calls].Timeout? then retry - 1 else MAX_RETRY)
  {
    assert events[..calls + 1][..calls] == events[..calls];
  }

  function ClientArrivals(events: seq<ClientEvent>): nat
  {
    if |events| == 0 then 0
    else ClientArrivals(events[..|events| - 1]) + (if events[|events| - 1].ClientArrived? then 1 else 0)
  }

  // ----- the actions of a transfer as a whole -----

  datatype Action =
    | ServerTimesOut
    | ServerHears(heard: Packet)
    | ClientTimesOut
    | ClientHears(packet: Packet)
    | StrangerHeard(source: Source, strange: Packet)

  predicate AtServer(action: Action)
  {
    action.ServerTimesOut? || action.ServerHears?
  }

  /** What the action makes the server's receive call return. */
  function ServerEvent(action: Action): Received
    requires AtServer(action)
  {
    if action.ServerTimesOut? then Timeout else Arrived(action.heard)
  }

  /** What the action makes the client's receive call return; `tid` is the port of the server's
      transfer thread. */
  function ClientEventOf(tid: UInt16, action: Action): ClientEvent
    requires !AtServer(action)
  {
    match action
    case ClientTimesOut => ClientTimeout
    case ClientHears(p) => ClientArrived(ServerHost(tid), p)
    case StrangerHeard(source, p) => ClientArrived(source, p)
  }

  /** The receive calls a series of actions lets the server's loop make. */
  function ServerEvents(actions: seq<Action>): seq<Received>
  {
    if |actions| == 0 then []
    else
      var k := |actions| - 1;
      ServerEvents(actions[..k]) + (if AtServer(actions[k]) then [ServerEvent(actions[k])] else [])
  }

  /** The receive calls a series of actions lets the client's loop make. */
  function ClientEvents(tid: UInt16, actions: seq<Action>): seq<ClientEvent>
  {
    if |actions| == 0 then []
    else
      var k := |actions| - 1;
      ClientEvents(tid, actions[..k]) + (if AtServer(actions[k]) then [] else [ClientEventOf(tid, actions[k])])
  }

  /** The packets sent. */
  function PacketsIn(sent: seq<Packet>): set<Packet>
  {
    set p | p in sent
  }

  lemma PacketsConcat(a: seq<Packet>, b: seq<Packet>)
    ensures PacketsIn(a + b) == PacketsIn(a) + PacketsIn(b)
  {
  }

  // ----- a network that delivers each packet once -----

  /** What the action takes off the network. */
  function Delivery(action: Action): multiset<Packet>
  {
    match action
    case ServerHears(p) => multiset{p}
    case ClientHears(p) => multiset{p}
    case _ => multiset{}
  }

  /** What the client's outputs put on the network: an acknowledgment sent to the unset address
      vanishes. */
  function Addressed(sent: seq<Output>): multiset<Packet>
  {
    if |sent| == 0 then multiset{}
    else
      (if sent[0].destination == ToServer then multiset{sent[0].packet} else multiset{}) + Addressed(sent[1..])
  }

  lemma {:induction false} AddressedSent(sent: seq<Output>)
    ensures forall p | p in Addressed(sent) :: exists o :: o in sent && o.destination == ToServer && o.packet == p
  {
    if |sent| > 0 {
      AddressedSent(sent[1..]);
      forall p | p in Addressed(sent)
        ensures exists o :: o in sent && o.destination == ToServer && o.packet == p
      {
        if p in Addressed(sent[1..]) {
          var o :| o in sent[1..] && o.destination == ToServer && o.packet == p;
          assert o in sent;
        } else {
          assert sent[0] in sent;
        }
      }
    }
  }
}
