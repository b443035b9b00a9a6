/**
 * A router (router.c): five ports, a table built from handshakes, local delivery, and flooding
 * of everything else to the neighbouring routers.
 */
module Routing {
  import opened Words
  import opened FirstFit

  const PORTS := 5
  const REQUEST_MIN := 1000
  const REQUEST_MAX := 2700

  const DATA_SIZE := 16

  type Payload = x: seq<Byte> | |x| == DATA_SIZE witness [0, 0, 0, 0, 0, 0, 0, 0, 0, 0, 0, 0, 0, 0, 0, 0]

  datatype Address = Address(low: Byte, high: Byte)

  /** A packet without its constant start and stop bytes. */
  datatype Packet = Packet(destination: Address, source: Address, index: Byte, total: Byte, data: Payload)

  const NOBODY := Address(0x00, 0x00)
  const ROUTERS := Address(0xff, 0xff)

  function Filled(b: Byte): Payload {
    [b, b, b, b, b, b, b, b, b, b, b, b, b, b, b, b]
  }

  const CLIENT_HANDSHAKE := Packet(NOBODY, ROUTERS, 1, 1, Filled(0x55)[1 := 0x00])
  const ROUTER_REQUEST := Packet(ROUTERS, ROUTERS, 1, 1, Filled(0x55))
  const ROUTER_REPLY := Packet(ROUTERS, ROUTERS, 1, 1, Filled(0xAA))

  datatype Kind = Unknown | Node | Router

  /** What the table says of one port. */
  datatype Slot = Slot(detected: bool, kind: Kind, address: Address)

  datatype Send = Send(port: nat, packet: Packet)

  const EMPTY_SLOT := Slot(false, Unknown, NOBODY)

  // What a packet does.

  predicate IsClientRequest(p: Packet) {
    p.destination == ROUTERS && p.data[0] == 0x55 && p.data[1] == 0x00
  }

  predicate IsRouterRequest(p: Packet) {
    p.destination == ROUTERS == p.source && p.data[0] == 0x55 && p.data[1] != 0x00
  }

  predicate IsRouterReply(p: Packet) {
    p.destination == ROUTERS == p.source && p.data[0] == 0xAA
  }

  predicate IsPing(p: Packet) {
    p.destination == ROUTERS && p.source == NOBODY && !IsClientRequest(p)
  }

  /** What a control packet makes of the port that it comes in on. */
  function ControlKind(p: Packet): Option<Kind> {
    if IsClientRequest(p) then Some(Node)
    else if IsRouterRequest(p) || IsRouterReply(p) then Some(Router)
    else None
  }

  predicate IsNodeWith(slot: Slot, a: Address) {
    slot.kind == Node && slot.address == a
  }

  /** The first port from d on that a node with the given address is known on. */
  function FirstNode(slots: seq<Slot>, a: Address, d: nat): (r: nat)
    requires d <= |slots|
    ensures d <= r <= |slots|
    ensures r < |slots| ==> IsNodeWith(slots[r], a)
    ensures forall k :: d <= k < r ==> !IsNodeWith(slots[k], a)
    decreases |slots| - d
  {
    if d == |slots| || IsNodeWith(slots[d], a) then d else FirstNode(slots, a, d + 1)
  }

  /** A packet for a router behind any of the first n ports but the one it came in on. */
  function Flood(slots: seq<Slot>, s: nat, p: Packet, n: nat): (sent: seq<Send>)
    requires n <= |slots|
    ensures forall x :: x in sent <==>
              x.packet == p && x.port < n && x.port != s && slots[x.port].kind == Router
    ensures forall i, j :: 0 <= i < j < |sent| ==> sent[i].port < sent[j].port
  {
    if n == 0 then []
    else Flood(slots, s, p, n - 1) + if n - 1 != s && slots[n - 1].kind == Router then [Send(n - 1, p)] else []
  }

  function Routed(slots: seq<Slot>, s: nat, p: Packet): seq<Send> {
    var d := FirstNode(slots, p.destination, 0);
    if d < |slots| then [Send(d, p)] else Flood(slots, s, p, |slots|)
  }

  function Replies(s: nat, p: Packet): seq<Send> {
    if IsClientRequest(p) then [Send(s, CLIENT_HANDSHAKE)]
    else if IsRouterRequest(p) then [Send(s, ROUTER_REPLY)]
    else if IsPing(p) then [Send(s, p)]
    else []
  }

  /** The table and the packets sent after a packet comes in on port s. */
  function Handled(slots: seq<Slot>, s: nat, p: Packet): (r: (seq<Slot>, seq<Send>))
    requires s < |slots|
    ensures |r.0| == |slots|
  {
    if p.destination == p.source == NOBODY then (slots, [])
    else if p.destination != ROUTERS then (slots, Routed(slots, s, p))
    else
      var slot := match ControlKind(p)
        case Some(Node) => slots[s].(kind := Node, address := p.source)
        case Some(kind) => slots[s].(kind := kind)
        case None => slots[s];
      (slots[s := slot], Replies(s, p))
  }

  // What the passing of time does.

  /** When each port next tries to reconnect. */
  datatype Timing = Timing(counters: seq<nat>, timeOut: nat, rate: nat)

  datatype State = State(slots: seq<Slot>, timing: Timing)

  function RevivedSlot(slot: Slot, present: bool): Slot {
    Slot(slot.detected || (slot.kind == Unknown && present), slot.kind, slot.address)
  }

  function Revived(slots: seq<Slot>, present: seq<bool>): (r: seq<Slot>)
    requires |slots| == |present|
    ensures |r| == |slots|
    ensures forall i :: 0 <= i < |r| ==> r[i] == RevivedSlot(slots[i], present[i])
  {
    seq(|slots|, i requires 0 <= i < |slots| => RevivedSlot(slots[i], present[i]))
  }

  /** A router request on each of the first n ports that hold a device of the given kind. */
  function Requests(slots: seq<Slot>, kinds: set<Kind>, n: nat): (sent: seq<Send>)
    requires n <= |slots|
    ensures forall x :: x in sent <==>
              x.packet == ROUTER_REQUEST && x.port < n && slots[x.port].detected && slots[x.port].kind in kinds
    ensures forall i, j :: 0 <= i < j < |sent| ==> sent[i].port < sent[j].port
  {
    if n == 0 then []
    else Requests(slots, kinds, n - 1)
         + if slots[n - 1].detected && slots[n - 1].kind in kinds then [Send(n - 1, ROUTER_REQUEST)] else []
  }

  function Repeated(sent: seq<Send>, n: nat): (r: seq<Send>)
    ensures forall x :: multiset(r)[x] == n * multiset(sent)[x]
  {
    if n == 0 then [] else Repeated(sent, n - 1) + sent
  }

  lemma Associates(a: seq<Send>, b: seq<Send>, c: seq<Send>)
    ensures a + b + c == a + (b + c)
  {
  }

  /** Counts on for port s: the port is due once its counter passes the rate. */
  function Due(t: Timing, s: nat): bool
    requires s < |t.counters|
  {
    t.counters[s] + 1 > t.rate
  }

  function TimedOut(t: Timing, s: nat): nat {
    if s == 0 then t.timeOut + 1 else t.timeOut
  }

  function TimingAfter(t: Timing, s: nat): Timing
    requires s < |t.counters|
  {
    if !Due(t, s) then t.(counters := t.counters[s := t.counters[s] + 1])
    else
      var timeOut := TimedOut(t, s);
      if timeOut > 10 then Timing(t.counters[s := 0], 0, REQUEST_MIN)
      else Timing(t.counters[s := 0], timeOut, if timeOut > 2 then REQUEST_MAX else t.rate)
  }

  /** The state and the packets sent after one turn of port s, before it looks for a packet. */
  function Ticked(st: State, s: nat, present: seq<bool>): (r: (State, seq<Send>))
    requires s < |st.slots| == |st.timing.counters| == |present|
    ensures |r.0.slots| == |st.slots|
  {
    var t := st.timing;
    if !Due(t, s) then (State(st.slots, TimingAfter(t, s)), [])
    else
      var hot := TimedOut(t, s) > 10;
      var slots := if hot then Revived(st.slots, present) else st.slots;
      var greetings := if hot then Requests(slots, {Unknown}, |slots|) else [];
      var again := if slots[s].kind == Router then [Send(s, ROUTER_REQUEST)] else [];
      (State(slots, TimingAfter(t, s)), greetings + again)
  }

  /** One turn of port s in the main loop. A port without a device receives nothing. */
  function Polled(st: State, s: nat, present: seq<bool>, incoming: Option<Packet>): (r: (State, seq<Send>))
    requires s < |st.slots| == |st.timing.counters| == |present|
    ensures |r.0.slots| == |st.slots|
  {
    var (ticked, sent) := Ticked(st, s, present);
    if !ticked.slots[s].detected || incoming.None? then (ticked, sent)
    else
      var (slots, more) := Handled(ticked.slots, s, incoming.value);
      (ticked.(slots := slots), sent + more)
  }

  class RouterState {
    const deviceState: array<bool>
    const deviceType: array<Kind>
    const address: array<Address>
    const reconnRequestCounter: array<nat>
    var reconnRequestTimeOut: nat
    var reconnRequestRate: nat

    constructor ()
      ensures Valid() && fresh(deviceState) && fresh(deviceType) && fresh(address) && fresh(reconnRequestCounter)
      ensures Slots() == seq(PORTS, _ => EMPTY_SLOT)
      ensures Clock() == Timing(seq(PORTS, _ => 0), 0, REQUEST_MIN)
    {
      deviceState := new bool[PORTS](_ => false);
      deviceType := new Kind[PORTS](_ => Unknown);
      address := new Address[PORTS](_ => NOBODY);
      reconnRequestCounter := new nat[PORTS](_ => 0);
      reconnRequestTimeOut, reconnRequestRate := 0, REQUEST_MIN;
    }

    /** The counters stay far below what sixteen bits hold, so none of them ever wraps. */
    ghost predicate Valid()
      reads this, reconnRequestCounter
    {
      && deviceState.Length == deviceType.Length == address.Length == reconnRequestCounter.Length == PORTS
      && (forall i :: 0 <= i < PORTS ==> reconnRequestCounter[i] <= REQUEST_MAX)
      && reconnRequestTimeOut <= 10
      && reconnRequestRate in {REQUEST_MIN, REQUEST_MAX}
    }

    ghost function Slots(): (slots: seq<Slot>)
      requires deviceState.Length == deviceType.Length == address.Length == PORTS
      reads deviceState, deviceType, address
      ensures |slots| == PORTS
      ensures forall i :: 0 <= i < PORTS ==> slots[i] == Slot(deviceState[i], deviceType[i], address[i])
    {
      seq(PORTS, i requires 0 <= i < PORTS reads deviceState, deviceType, address =>
        Slot(deviceState[i], deviceType[i], address[i]))
    }

    ghost function Clock(): Timing
      reads this, reconnRequestCounter
    {
      Timing(reconnRequestCounter[..], reconnRequestTimeOut, reconnRequestRate)
    }

    ghost function Value(): State
      requires Valid()
      reads this, deviceState, deviceType, address, reconnRequestCounter
    {
      State(Slots(), Clock())
    }

    /** Looks for a device on every port that has none, up to three times. */
    method Detect(present: seq<seq<bool>>)
      requires Valid() && |present| == 3 && forall r :: 0 <= r < 3 ==> |present[r]| == PORTS
      modifies deviceState, deviceType, address
      ensures Valid()
      ensures forall i :: 0 <= i < PORTS ==>
                Slots()[i] == if old(Slots()[i]).detected then old(Slots()[i])
                              else Slot(present[0][i] || present[1][i] || present[2][i], Unknown, NOBODY)
    {
      for retry := 0 to 3
        invariant Valid()
        invariant forall i :: 0 <= i < PORTS ==>
                    if old(Slots()[i]).detected then Slots()[i] == old(Slots()[i])
                    else
                      && deviceState[i] == (exists r :: 0 <= r < retry && present[r][i])
                      && (retry > 0 ==> deviceType[i] == Unknown && address[i] == NOBODY)
      {
        for s := 0 to PORTS
          invariant Valid()
          invariant forall i :: 0 <= i < PORTS ==>
                      if old(Slots()[i]).detected then Slots()[i] == old(Slots()[i])
                      else
                        && deviceState[i] ==
                             (exists r :: 0 <= r < (if i < s then retry + 1 else retry) && present[r][i])
                        && (retry > 0 || i < s ==> deviceType[i] == Unknown && address[i] == NOBODY)
        {
          if deviceState[s] {
            continue;
          }
          deviceType[s] := Unknown;
          address[s] := NOBODY;
          deviceState[s] := present[retry][s];
        }
      }
    }

    /** Sends three router requests to every device found, whatever its kind. */
    method Announce() returns (sent: seq<Send>)
      requires Valid()
      ensures sent == Repeated(Requests(Slots(), {Unknown, Node, Router}, PORTS), 3)
    {
      sent := [];
      for retry := 0 to 3
        invariant sent == Repeated(Requests(Slots(), {Unknown, Node, Router}, PORTS), retry)
      {
        ghost var before := sent;
        for s := 0 to PORTS
          invariant sent == before + Requests(Slots(), {Unknown, Node, Router}, s)
        {
          var more := if deviceState[s] then [Send(s, ROUTER_REQUEST)] else [];
          assert Slots()[s].kind.Unknown? || Slots()[s].kind.Node? || Slots()[s].kind.Router?;
          Associates(before, Requests(Slots(), {Unknown, Node, Router}, s), more);
          sent := sent + more;
        }
      }
    }

    /** Counts on for port s, and says whether it is due and whether to look for new devices. */
    method CountOn(s: nat) returns (due: bool, hot: bool)
      requires Valid() && s < PORTS
      modifies this, reconnRequestCounter
      ensures Valid()
      ensures Clock() == TimingAfter(old(Clock()), s)
      ensures due == Due(old(Clock()), s) && hot == (due && TimedOut(old(Clock()), s) > 10)
    {
      due, hot := false, false;
      reconnRequestCounter[s] := reconnRequestCounter[s] + 1;
      if reconnRequestCounter[s] > reconnRequestRate {
        due := true;
        reconnRequestCounter[s] := 0;
        if s == 0 {
          reconnRequestTimeOut := reconnRequestTimeOut + 1;
        }
        if reconnRequestTimeOut > 2 {
          reconnRequestRate := REQUEST_MAX;
          if reconnRequestTimeOut > 10 {
            reconnRequestRate := REQUEST_MIN;
            reconnRequestTimeOut := 0;
            hot := true;
          }
        }
      }
      assert reconnRequestCounter[..] == TimingAfter(old(Clock()), s).counters;
    }

    /** Counts on for port s, and tries to reconnect when it is due. */
    method Reconnect(s: nat, present: seq<bool>) returns (sent: seq<Send>)
      requires Valid() && s < PORTS == |present|
      modifies this, deviceState, reconnRequestCounter
      ensures Valid()
      ensures (Value(), sent) == Ticked(old(Value()), s, present)
    {
      hide Requests, Revived, TimingAfter, Due, TimedOut;
      sent := [];
      var due, hot := CountOn(s);
      if due {
        if hot {
          Revive(present);
          sent := GreetUnknown();
        }
        if deviceType[s] == Router {
          sent := sent + [Send(s, ROUTER_REQUEST)];
        }
      }
      assert sent == Ticked(old(Value()), s, present).1;
    }

    /** Detects devices on the ports of unknown kind. */
    method Revive(present: seq<bool>)
      requires Valid() && |present| == PORTS
      modifies deviceState
      ensures Valid() && Slots() == Revived(old(Slots()), present)
    {
      for ds := 0 to PORTS
        invariant forall i :: 0 <= i < ds ==>
                    deviceState[i] == (old(deviceState[i]) || (deviceType[i] == Unknown && present[i]))
        invariant forall i :: ds <= i < PORTS ==> deviceState[i] == old(deviceState[i])
      {
        if deviceType[ds] == Unknown && present[ds] {
          deviceState[ds] := true;
        }
      }
    }

    /** Sends a router request to every device of unknown kind. */
    method GreetUnknown() returns (sent: seq<Send>)
      requires Valid()
      ensures sent == Requests(Slots(), {Unknown}, PORTS)
    {
      sent := [];
      for ds := 0 to PORTS
        invariant sent == Requests(Slots(), {Unknown}, ds)
      {
        if deviceState[ds] && deviceType[ds] == Unknown {
          sent := sent + [Send(ds, ROUTER_REQUEST)];
        }
      }
    }

    /** Sends a packet on, to the node that it is for or else to the other routers. */
    method Route(s: nat, p: Packet) returns (sent: seq<Send>)
      requires Valid() && s < PORTS
      ensures sent == Routed(Slots(), s, p)
    {
      for d := 0 to PORTS
        invariant FirstNode(Slots(), p.destination, d) == FirstNode(Slots(), p.destination, 0)
      {
        if deviceType[d] == Node && p.destination.low == address[d].low && p.destination.high == address[d].high {
          return [Send(d, p)];
        }
      }
      sent := [];
      for d := 0 to PORTS
        invariant sent == Flood(Slots(), s, p, d)
      {
        if s != d && deviceType[d] == Router {
          sent := sent + [Send(d, p)];
        }
      }
    }

    /** Deals with a packet that came in on port s. */
    method Receive(s: nat, p: Packet) returns (sent: seq<Send>)
      requires Valid() && s < PORTS
      modifies deviceType, address
      ensures Valid()
      ensures (Slots(), sent) == Handled(old(Slots()), s, p)
    {
      if p.destination.low == 0x00 && p.destination.high == 0x00 && p.source.low == 0x00 && p.source.high == 0x00 {
        return [];
      }
      if p.destination.low == 0xff && p.destination.high == 0xff {
        sent := [];
        if p.data[0] == 0x55 && p.data[1] == 0x00 {
          deviceType[s] := Node;
          address[s] := p.source;
          assert Slots() == old(Slots())[s := old(Slots()[s]).(kind := Node, address := p.source)];
          return [Send(s, CLIENT_HANDSHAKE)];
        }
        if p.source.low == 0xff && p.source.high == 0xff {
          if p.data[0] == 0x55 {
            deviceType[s] := Router;
            sent := sent + [Send(s, ROUTER_REPLY)];
          }
          if p.data[0] == 0xAA {
            deviceType[s] := Router;
          }
        }
        if p.source.low == 0x00 && p.source.high == 0x00 {
          sent := sent + [Send(s, p)];
        }
        assert Slots() == old(Slots())[s := old(Slots()[s]).(kind := deviceType[s])];
        assert sent == Replies(s, p);
        return;
      }
      sent := Route(s, p);
    }

    /** One turn of port s in the main loop. */
    method Poll(s: nat, present: seq<bool>, incoming: Option<Packet>) returns (sent: seq<Send>)
      requires Valid() && s < PORTS == |present|
      modifies this, deviceState, deviceType, address, reconnRequestCounter
      ensures Valid()
      ensures (Value(), sent) == Polled(old(Value()), s, present, incoming)
    {
      sent := Reconnect(s, present);
      if deviceState[s] && incoming.Some? {
        var more := Receive(s, incoming.value);
        sent := sent + more;
      }
    }
  }
}
