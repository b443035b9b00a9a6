/**
 * What a router sends, told by the fields of the packet that came in and by the table.
 */
module RouterSends {
  import opened Words
  import opened Routing
  import opened RoutingRuns

  /** All sixteen data bytes from position k on are the given one. */
  predicate IsFilled(data: Payload, k: nat, b: Byte) {
    forall i :: k <= i < DATA_SIZE ==> data[i] == b
  }

  /** The acknowledgement of a client: to nobody, from the routers, with the client's own pattern. */
  predicate IsForClient(p: Packet) {
    && p.destination == Address(0x00, 0x00) && p.source == Address(0xff, 0xff) && p.index == p.total == 1
    && p.data[0] == 0x55 && p.data[1] == 0x00 && IsFilled(p.data, 2, 0x55)
  }

  /** A packet between routers, all of whose data is one byte. */
  predicate IsBetweenRouters(p: Packet, b: Byte) {
    && p.destination == p.source == Address(0xff, 0xff) && p.index == p.total == 1
    && IsFilled(p.data, 0, b)
  }

  /** The request that a router sends out is the one that other routers take for one. */
  lemma RequestIsUnderstood()
    ensures IsBetweenRouters(ROUTER_REQUEST, 0x55) && FromRouter(ROUTER_REQUEST)
  {
  }

  /** A packet for the routers is answered on the port that it came in on, or not at all. */
  lemma ControlIsAnswered(slots: seq<Slot>, s: nat, p: Packet)
    requires s < |slots| && IsForRouters(p)
    ensures var sent := Handled(slots, s, p).1;
      if FromClient(p) then |sent| == 1 && sent[0].port == s && IsForClient(sent[0].packet)
      else if FromRouter(p) && p.data[0] == 0x55 then
        |sent| == 1 && sent[0].port == s && IsBetweenRouters(sent[0].packet, 0xAA)
      else if p.source == Address(0x00, 0x00) then sent == [Send(s, p)]
      else sent == []
  {
  }

  /** Slot d is the first one that knows a node with the address. */
  predicate IsFirstWith(slots: seq<Slot>, a: Address, d: nat) {
    && d < |slots| && slots[d].kind == Node && slots[d].address == a
    && forall k :: 0 <= k < d ==> !(slots[k].kind == Node && slots[k].address == a)
  }

  predicate KnowsNode(slots: seq<Slot>, a: Address) {
    exists d :: 0 <= d < |slots| && slots[d].kind == Node && slots[d].address == a
  }

  /**
   * Any other packet goes, unchanged, to the first node with its destination and nowhere else;
   * without one, once to each router but the one it came from. A packet from nobody to nobody is
   * dropped.
   */
  lemma DataIsRouted(slots: seq<Slot>, s: nat, p: Packet)
    requires s < |slots| && !IsForRouters(p)
    ensures var sent := Handled(slots, s, p).1;
      if p.destination == p.source == Address(0x00, 0x00) then sent == []
      else if KnowsNode(slots, p.destination) then
        exists d: nat :: IsFirstWith(slots, p.destination, d) && sent == [Send(d, p)]
      else
        && (forall x :: x in sent <==>
              x.packet == p && x.port < |slots| && x.port != s && slots[x.port].kind == Router)
        && (forall i, j :: 0 <= i < j < |sent| ==> sent[i].port < sent[j].port)
    ensures Handled(slots, s, p).0 == slots
  {
    hide FirstNode, Flood;
    var d := FirstNode(slots, p.destination, 0);
    if d < |slots| {
      assert IsFirstWith(slots, p.destination, d);
    }
  }

  /** Whatever is sent because of a packet that is no control packet is that packet itself. */
  lemma SentIsReceived(slots: seq<Slot>, s: nat, p: Packet)
    requires s < |slots| && !IsForRouters(p)
    ensures forall x :: x in Handled(slots, s, p).1 ==> x.packet == p
  {
    hide Handled, KnowsNode, IsFirstWith;
    DataIsRouted(slots, s, p);
  }

  /** At power on each port with a device gets the router request three times, and no other port any. */
  lemma AnnouncedThrice(slots: seq<Slot>, x: Send)
    requires |slots| == PORTS
    ensures var sent := Repeated(Requests(slots, {Unknown, Node, Router}, PORTS), 3);
      multiset(sent)[x] == if x.port < PORTS && slots[x.port].detected && x.packet == ROUTER_REQUEST then 3 else 0
  {
    var one := Requests(slots, {Unknown, Node, Router}, PORTS);
    OnceEach(one, x);
    if x.port < PORTS {
      assert slots[x.port].kind.Unknown? || slots[x.port].kind.Node? || slots[x.port].kind.Router?;
    }
  }

  /** Sends to ascending ports hold none twice. */
  lemma {:induction false} OnceEach(sent: seq<Send>, x: Send)
    requires forall i, j :: 0 <= i < j < |sent| ==> sent[i].port < sent[j].port
    ensures multiset(sent)[x] == if x in sent then 1 else 0
  {
    if sent != [] {
      var n := |sent| - 1;
      assert sent == sent[..n] + [sent[n]];
      OnceEach(sent[..n], x);
      forall y | y in sent[..n]
        ensures y.port < sent[n].port
      {
        var i :| 0 <= i < n && sent[i] == y;
      }
    }
  }

  /** A turn sends what is due on its port, and then what a packet on a port with a device causes. */
  lemma TurnSends(st: State, turn: Turn)
    requires IsState(st) && turn.port < PORTS == |turn.present|
    ensures var (ticked, sent) := Ticked(st, turn.port, turn.present);
      Polled(st, turn.port, turn.present, turn.incoming).1
        == sent + if ticked.slots[turn.port].detected && turn.incoming.Some?
                  then Handled(ticked.slots, turn.port, turn.incoming.value).1 else []
  {
    hide Ticked, Handled;
  }

  /**
   * Once a client was the last to be heard on port s, a packet for its address that comes in on
   * any port goes, unchanged, to the first port that knows the address, and nowhere else.
   */
  lemma ClientIsFound(st: State, run: seq<Turn>, i: int, s: nat, turn: Turn)
    requires IsState(st) && Turns(run) && s < PORTS && st.slots[s].kind == Unknown
    requires IsLastHeard(st, run, i, s) && FromClient(run[i].incoming.value)
    requires turn.port < PORTS == |turn.present| && turn.incoming.Some?
    requires var q := turn.incoming.value;
      && q.destination == run[i].incoming.value.source && !IsForRouters(q)
      && !(q.destination == q.source == Address(0x00, 0x00))
    ensures var now := After(st, run);
      var (ticked, sent) := Ticked(now, turn.port, turn.present);
      ticked.slots[turn.port].detected ==>
        exists d: nat ::
          && d <= s && IsFirstWith(now.slots, turn.incoming.value.destination, d)
          && Polled(now, turn.port, turn.present, turn.incoming).1 == sent + [Send(d, turn.incoming.value)]
  {
    hide Handled, Ticked, Polled, After, HearsIn, FromClient;
    var now, q := After(st, run), turn.incoming.value;
    LastHeardTells(st, run, i, s);
    var ticked := Ticked(now, turn.port, turn.present).0;
    forall k: nat | k < PORTS
      ensures ticked.slots[k].kind == now.slots[k].kind && ticked.slots[k].address == now.slots[k].address
      ensures |ticked.slots| == PORTS
    {
      TickedSlot(now, turn.port, turn.present, k);
    }
    DataIsRouted(ticked.slots, turn.port, q);
    TurnSends(now, turn);
    assert KnowsNode(ticked.slots, q.destination);
  }

  /** There is one packet heard last on a port, and the table tells of it. */
  lemma LastHeardTells(st: State, run: seq<Turn>, i: int, s: nat)
    requires IsState(st) && Turns(run) && s < PORTS && st.slots[s].kind == Unknown
    requires IsLastHeard(st, run, i, s)
    ensures TellsOf(After(st, run).slots[s], run[i])
  {
    hide After, HearsIn, TellsOf;
    TableOfRun(st, run, s);
    var j :| IsLastHeard(st, run, j, s) && TellsOf(After(st, run).slots[s], run[j]);
    assert i == j;
  }
}
