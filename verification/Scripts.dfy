/** What a series of receive calls says by itself: how long nothing has come, and which packets are
    from the transfer's own server. */
module Scripts {
  import opened Protocol

  /** The last five calls brought nothing. */
  predicate FiveSilent<T(==)>(heard: seq<T>, timeout: T)
  {
    |heard| >= 5 && forall i | |heard| - 5 <= i < |heard| :: heard[i] == timeout
  }

  /** How many calls at the end brought nothing. */
  function Silence<T(==)>(heard: seq<T>, timeout: T): nat
  {
    if |heard| == 0 || heard[|heard| - 1] != timeout then 0
    else 1 + Silence(heard[..|heard| - 1], timeout)
  }

  lemma {:induction false} SilenceAtLeast<T>(heard: seq<T>, timeout: T, k: nat)
    ensures Silence(heard, timeout) >= k <==>
      |heard| >= k && forall i | |heard| - k <= i < |heard| :: heard[i] == timeout
  {
    if k > 0 && |heard| > 0 {
      var before := heard[..|heard| - 1];
      SilenceAtLeast(before, timeout, k - 1);
      assert forall i | 0 <= i < |before| :: before[i] == heard[i];
    }
  }

  lemma SilenceSnoc<T>(heard: seq<T>, event: T, timeout: T)
    ensures Silence(heard + [event], timeout) == if event == timeout then Silence(heard, timeout) + 1 else 0
    ensures FiveSilent(heard + [event], timeout) <==> event == timeout && Silence(heard, timeout) >= 4
  {
    assert (heard + [event])[..|heard|] == heard;
    SilenceAtLeast(heard + [event], timeout, 5);
  }

  /** The port of the first packet from the server's host. */
  function FirstPort(heard: seq<ClientEvent>): int
  {
    if |heard| == 0 then UNPINNED
    else
      var port, last := FirstPort(heard[..|heard| - 1]), heard[|heard| - 1];
      if port == UNPINNED && last.ClientArrived? && last.source.ServerHost? then last.source.port else port
  }

  /** After the calls heard, the event is a packet from the server's transfer thread. */
  predicate FromServer(heard: seq<ClientEvent>, event: ClientEvent)
  {
    && event.ClientArrived? && event.source.ServerHost?
    && (FirstPort(heard) == UNPINNED || FirstPort(heard) == event.source.port)
  }

  predicate FromStranger(heard: seq<ClientEvent>, event: ClientEvent)
  {
    event.ClientArrived? && !FromServer(heard, event)
  }

  lemma FirstPortSnoc(heard: seq<ClientEvent>, event: ClientEvent)
    ensures FirstPort(heard + [event]) ==
      if FirstPort(heard) == UNPINNED && FromServer(heard, event) then event.source.port else FirstPort(heard)
  {
    assert (heard + [event])[..|heard|] == heard;
  }
}
