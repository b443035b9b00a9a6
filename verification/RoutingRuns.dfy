/**
 * What a router's table says after any run of turns, and how conversations between routers end.
 */
module RoutingRuns {
  import opened FirstFit
  import opened Routing

  /** One turn of a port: which devices answer, and the packet that has come in, if any. */
  datatype Turn = Turn(port: nat, present: seq<bool>, incoming: Option<Packet>)

  ghost predicate Turns(run: seq<Turn>) {
    forall i :: 0 <= i < |run| ==> run[i].port < PORTS == |run[i].present|
  }

  ghost predicate IsState(st: State) {
    |st.slots| == |st.timing.counters| == PORTS
  }

  ghost function After(st: State, run: seq<Turn>): (st': State)
    requires IsState(st) && Turns(run)
    ensures IsState(st')
  {
    if run == [] then st
    else
      var n := |run| - 1;
      Polled(After(st, run[..n]), run[n].port, run[n].present, run[n].incoming).0
  }

  // Control packets, by their fields.

  predicate IsForRouters(p: Packet) {
    p.destination.low == 0xff && p.destination.high == 0xff
  }

  /** The packet with which a client announces itself. */
  predicate FromClient(p: Packet) {
    IsForRouters(p) && p.data[0] == 0x55 && p.data[1] == 0x00
  }

  /** The packet with which a router asks for a connection, or answers such a packet. */
  predicate FromRouter(p: Packet) {
    && IsForRouters(p) && !FromClient(p)
    && p.source.low == 0xff && p.source.high == 0xff && (p.data[0] == 0x55 || p.data[0] == 0xAA)
  }

  /** What a packet that comes in on port s does to the table, told by its fields. */
  lemma TableAfterPacket(slots: seq<Slot>, s: nat, p: Packet)
    requires s < |slots|
    ensures var after := Handled(slots, s, p).0;
      && (FromClient(p) ==> after == slots[s := Slot(slots[s].detected, Node, p.source)])
      && (FromRouter(p) ==> after == slots[s := Slot(slots[s].detected, Router, slots[s].address)])
      && (!FromClient(p) && !FromRouter(p) ==> after == slots)
  {
  }

  /** A turn in which port s, known to hold a device by then, gets a control packet. */
  ghost predicate HearsIn(st: State, turn: Turn, s: nat)
    requires IsState(st) && s < PORTS && turn.port < PORTS == |turn.present|
  {
    && turn.port == s && turn.incoming.Some?
    && (FromClient(turn.incoming.value) || FromRouter(turn.incoming.value))
    && Ticked(st, s, turn.present).0.slots[s].detected
  }

  ghost predicate Hears(st: State, run: seq<Turn>, i: int, s: nat)
    requires IsState(st) && Turns(run) && s < PORTS
  {
    0 <= i < |run| && HearsIn(After(st, run[..i]), run[i], s)
  }

  ghost predicate IsLastHeard(st: State, run: seq<Turn>, i: int, s: nat)
    requires IsState(st) && Turns(run) && s < PORTS
  {
    Hears(st, run, i, s) && forall j :: i < j < |run| ==> !Hears(st, run, j, s)
  }

  /** What the table must say of port s after the run, given the control packet heard last. */
  ghost predicate TellsOf(slot: Slot, turn: Turn) {
    turn.incoming.Some? &&
    if FromClient(turn.incoming.value) then slot.kind == Node && slot.address == turn.incoming.value.source
    else slot.kind == Router
  }

  /** What one turn does to the table's entry for port s. */
  lemma TurnOfSlot(st: State, turn: Turn, s: nat)
    requires IsState(st) && s < PORTS && turn.port < PORTS == |turn.present|
    requires st.slots[s].kind != Unknown ==> st.slots[s].detected
    ensures var slot := Polled(st, turn.port, turn.present, turn.incoming).0.slots[s];
      && (slot.kind != Unknown ==> slot.detected)
      && (if HearsIn(st, turn, s) then TellsOf(slot, turn) else slot.kind == st.slots[s].kind)
      && slot.address == if HearsIn(st, turn, s) && FromClient(turn.incoming.value) then turn.incoming.value.source
                         else st.slots[s].address
  {
    hide Handled, FromClient, FromRouter, Ticked;
    TickedSlot(st, turn.port, turn.present, s);
    var ticked := Ticked(st, turn.port, turn.present).0;
    if turn.incoming.Some? {
      TableAfterPacket(ticked.slots, turn.port, turn.incoming.value);
    }
  }

  /** The reconnection attempts change no kind and no address, and forget no device. */
  lemma TickedSlot(st: State, port: nat, present: seq<bool>, s: nat)
    requires IsState(st) && port < PORTS == |present| && s < PORTS
    ensures var e := Ticked(st, port, present).0;
      && |e.slots| == PORTS
      && e.slots[s].kind == st.slots[s].kind && e.slots[s].address == st.slots[s].address
      && (st.slots[s].detected ==> e.slots[s].detected)
  {
    hide TimingAfter, Requests, Due, TimedOut;
  }

  lemma HearsPrefix(st: State, run: seq<Turn>, s: nat)
    requires IsState(st) && Turns(run) && s < PORTS && run != []
    ensures Turns(run[..|run| - 1])
    ensures forall i :: 0 <= i < |run| - 1 ==> (Hears(st, run, i, s) <==> Hears(st, run[..|run| - 1], i, s))
  {
    var front := run[..|run| - 1];
    forall i | 0 <= i < |run| - 1
      ensures Hears(st, run, i, s) <==> Hears(st, front, i, s)
    {
      assert front[..i] == run[..i];
    }
  }

  /**
   * After any run the kind of a port is what the last control packet heard there made it, the
   * address of a node is the source of that packet, and only ports with a device have a kind.
   */
  lemma {:induction false} TableOfRun(st: State, run: seq<Turn>, s: nat)
    requires IsState(st) && Turns(run) && s < PORTS && st.slots[s].kind == Unknown
    ensures var slot := After(st, run).slots[s];
      && (slot.kind != Unknown ==> slot.detected)
      && if exists i :: IsLastHeard(st, run, i, s)
         then exists i :: IsLastHeard(st, run, i, s) && TellsOf(slot, run[i])
         else slot.kind == Unknown && forall i :: 0 <= i < |run| ==> !Hears(st, run, i, s)
  {
    hide Polled, Ticked, HearsIn, FromClient, FromRouter;
    if run != [] {
      var n := |run| - 1;
      var front := run[..n];
      HearsPrefix(st, run, s);
      TableOfRun(st, front, s);
      TurnOfSlot(After(st, front), run[n], s);
      if Hears(st, run, n, s) {
        assert IsLastHeard(st, run, n, s);
      } else if i :| IsLastHeard(st, front, i, s) && TellsOf(After(st, front).slots[s], front[i]) {
        assert IsLastHeard(st, run, i, s);
      } else {
        assert forall i :: 0 <= i < n ==> !Hears(st, front, i, s);
      }
    }
  }

  lemma KnownIsDetected(st: State, run: seq<Turn>, s: nat)
    requires IsState(st) && Turns(run) && s < PORTS && st.slots[s].kind == Unknown
    ensures After(st, run).slots[s].kind != Unknown ==> After(st, run).slots[s].detected
  {
    hide After, IsLastHeard, Hears, TellsOf;
    TableOfRun(st, run, s);
  }

  /** In turn i port s hears a client. */
  ghost predicate HearsClient(st: State, run: seq<Turn>, i: int, s: nat)
    requires IsState(st) && Turns(run) && s < PORTS
  {
    0 <= i < |run| && Hears(st, run, i, s) && run[i].incoming.Some? && FromClient(run[i].incoming.value)
  }

  ghost predicate IsLastClient(st: State, run: seq<Turn>, i: int, s: nat)
    requires IsState(st) && Turns(run) && s < PORTS
  {
    && 0 <= i < |run| && run[i].incoming.Some? && HearsClient(st, run, i, s)
    && forall j :: i < j < |run| ==> !HearsClient(st, run, j, s)
  }

  lemma ClientPrefix(st: State, run: seq<Turn>, s: nat)
    requires IsState(st) && Turns(run) && s < PORTS && run != []
    ensures var front := run[..|run| - 1];
      && Turns(front)
      && (forall i :: 0 <= i < |front| ==> (HearsClient(st, run, i, s) <==> HearsClient(st, front, i, s)))
      && (HearsIn(After(st, front), run[|front|], s) ==> run[|front|].incoming.Some?)
      && (HearsClient(st, run, |front|, s) <==>
            HearsIn(After(st, front), run[|front|], s) && FromClient(run[|front|].incoming.value))
  {
    hide Polled, Ticked, FromClient, FromRouter;
    HearsPrefix(st, run, s);
  }

  lemma NoNewClient(st: State, run: seq<Turn>, s: nat)
    requires IsState(st) && Turns(run) && s < PORTS && run != []
    requires !HearsClient(st, run, |run| - 1, s)
    ensures var front := run[..|run| - 1];
      && Turns(front)
      && (forall i :: IsLastClient(st, run, i, s) <==> IsLastClient(st, front, i, s))
      && (forall i :: 0 <= i < |front| ==> (HearsClient(st, run, i, s) <==> HearsClient(st, front, i, s)))
  {
    hide Hears, FromClient;
    ClientPrefix(st, run, s);
  }

  /** The address of a port is that of the last client heard there, whatever routers follow. */
  lemma {:induction false} AddressOfRun(st: State, run: seq<Turn>, s: nat)
    requires IsState(st) && Turns(run) && s < PORTS && st.slots[s].kind == Unknown
    ensures var slot := After(st, run).slots[s];
      if exists i :: IsLastClient(st, run, i, s)
      then exists i :: IsLastClient(st, run, i, s) && slot.address == run[i].incoming.value.source
      else slot.address == st.slots[s].address && forall i :: 0 <= i < |run| ==> !HearsClient(st, run, i, s)
  {
    hide Polled, HearsIn, FromClient, HearsClient;
    if run != [] {
      var n := |run| - 1;
      var front := run[..n];
      ClientPrefix(st, run, s);
      KnownIsDetected(st, front, s);
      AddressOfRun(st, front, s);
      TurnOfSlot(After(st, front), run[n], s);
      if HearsClient(st, run, n, s) {
        assert IsLastClient(st, run, n, s);
      } else {
        NoNewClient(st, run, s);
      }
    }
  }

  // Conversations.

  /** The packet with which a router answers a control packet on the port it came in on. */
  function Answer(p: Packet): Option<Packet> {
    var sent := Replies(0, p);
    if sent == [] then None else Some(sent[0].packet)
  }

  /** An answer is exactly what the handling of the packet sends, whatever the table says. */
  lemma AnswerIsSent(slots: seq<Slot>, s: nat, p: Packet)
    requires s < |slots| && p.destination == ROUTERS
    ensures Handled(slots, s, p).1 == if Answer(p).Some? then [Send(s, Answer(p).value)] else []
  {
  }

  /** How many of the first n answers are given when each answer goes to another router. */
  function Volleys(p: Packet, n: nat): (k: nat)
    ensures k <= n
    decreases n
  {
    if n == 0 || Answer(p).None? then 0 else 1 + Volleys(Answer(p).value, n - 1)
  }

  /** A ping is answered by the same ping, and so on without end. */
  lemma {:induction false} PingNeverEnds(p: Packet, n: nat)
    requires IsPing(p)
    ensures Volleys(p, n) == n
  {
    if n > 0 {
      PingNeverEnds(p, n - 1);
    }
  }

  /** A handshake takes at most one answer; a conversation of routers ends unless it is a ping. */
  lemma ConversationEndsIff(p: Packet)
    ensures IsRouterRequest(p) ==> Answer(p) == Some(ROUTER_REPLY) && Answer(ROUTER_REPLY) == None
    ensures IsRouterReply(p) ==> Answer(p) == None
    ensures !IsPing(p) <==> forall n: nat :: Volleys(p, n) <= 1
  {
    if IsPing(p) {
      PingNeverEnds(p, 2);
    }
  }
}
