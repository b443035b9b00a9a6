/**
 * A packet on its way through a network of routers: whatever the order in which the routers get
 * to it, it reaches the node that it is for exactly once, and soon is nowhere on the way.
 */
module Delivery {
  import opened Counting
  import opened FirstFit
  import opened Routing
  import opened RoutingRuns
  import opened RouterSends
  import opened Networks

  /**
   * The tracks of a packet, whatever its copies carry: where they wait, which routers have handled
   * one, and which ports got one.
   */
  datatype Track = Track(pending: seq<Hop>, handled: seq<nat>, delivered: seq<Hop>)

  /** The arrivals that the packets sent by router r cause at other routers. */
  ghost function Arrivals(net: Net, r: nat, sent: seq<Send>): seq<Hop> {
    if sent == [] then []
    else
      var n := |sent| - 1;
      var h := Hop(r, sent[n].port);
      Arrivals(net, r, sent[..n]) + if h in net.links then [net.links[h]] else []
  }

  /** The ports of router r that are no links and that a packet is sent out on. */
  ghost function Deliveries(net: Net, r: nat, sent: seq<Send>): seq<Hop> {
    if sent == [] then []
    else
      var n := |sent| - 1;
      var h := Hop(r, sent[n].port);
      Deliveries(net, r, sent[..n]) + if h in net.links then [] else [h]
  }

  /** A packet that routers neither drop nor take for themselves. */
  predicate IsRouted(p: Packet) {
    p.destination != ROUTERS && !(p.destination == p.source == NOBODY)
  }

  ghost function Others(xs: seq<Hop>, i: nat): seq<Hop>
    requires i < |xs|
  {
    xs[..i] + xs[i + 1..]
  }

  /** The tracks after the copy at position i is handled by the router where it has come in. */
  ghost function Tracked(net: Net, p: Packet, f: Track, i: nat): Track
    requires i < |f.pending| && InNet(net, f.pending[i])
  {
    var x := f.pending[i];
    var sent := Handled(net.tables[x.router], x.port, p).1;
    Track(Others(f.pending, i) + Arrivals(net, x.router, sent),
           f.handled + [x.router],
           f.delivered + Deliveries(net, x.router, sent))
  }

  ghost predicate InNet(net: Net, x: Hop) {
    x.router < |net.tables| && x.port < |net.tables[x.router]|
  }

  /** The port of a node with the given address. */
  ghost predicate IsHome(net: Net, a: Address, t: Hop) {
    InNet(net, t) && IsNodeWith(net.tables[t.router][t.port], a)
  }

  ghost predicate Unique(net: Net, a: Address) {
    forall t, u :: IsHome(net, a, t) && IsHome(net, a, u) ==> t == u
  }

  // What one router sends.

  ghost predicate NoneTwice(xs: seq<Hop>) {
    forall i, j :: 0 <= i < j < |xs| ==> xs[i] != xs[j]
  }

  /** The arrivals ys are those that sending on through all ports below n causes, once each. */
  ghost predicate AreMoves(net: Net, x: Hop, n: nat, ys: seq<Hop>) {
    NoneTwice(ys) && forall y :: y in ys <==> Moves(net, x, y) && net.links[y].port < n
  }

  lemma OnePortMore(net: Net, x: Hop, n: nat, ys: seq<Hop>)
    requires Wired(net) && AreMoves(net, x, n, ys)
    ensures var h := Hop(x.router, n);
      if h in net.links && n != x.port then AreMoves(net, x, n + 1, ys + [net.links[h]])
      else AreMoves(net, x, n + 1, ys)
  {
    var h := Hop(x.router, n);
    forall y | Moves(net, x, y) && net.links[y].port < n + 1
      ensures (Moves(net, x, y) && net.links[y].port < n) || (h in net.links && n != x.port && y == net.links[h])
    {
    }
  }

  lemma OneSendMore(net: Net, r: nat, sent: seq<Send>, x: Send)
    ensures var h := Hop(r, x.port);
      && Arrivals(net, r, sent + [x]) == Arrivals(net, r, sent) + (if h in net.links then [net.links[h]] else [])
      && Deliveries(net, r, sent + [x]) == Deliveries(net, r, sent) + if h in net.links then [] else [h]
  {
    assert (sent + [x])[..|sent|] == sent;
  }

  lemma {:induction false} FloodArrives(net: Net, x: Hop, p: Packet, n: nat)
    requires Wired(net) && InNet(net, x) && n <= |net.tables[x.router]|
    ensures var sent := Flood(net.tables[x.router], x.port, p, n);
      Deliveries(net, x.router, sent) == [] && AreMoves(net, x, n, Arrivals(net, x.router, sent))
  {
    hide AreMoves, Arrivals, Deliveries, Wired;
    NoMoves(net, x);
    if n > 0 {
      var slots := net.tables[x.router];
      RouterIsLinked(net, x, n - 1);
      var front := Flood(slots, x.port, p, n - 1);
      FloodArrives(net, x, p, n - 1);
      OnePortMore(net, x, n - 1, Arrivals(net, x.router, front));
      OneSendMore(net, x.router, front, Send(n - 1, p));
      FloodStep(slots, x.port, p, n);
    }
  }

  lemma RouterIsLinked(net: Net, x: Hop, s: nat)
    requires Wired(net) && InNet(net, x) && s < |net.tables[x.router]|
    ensures net.tables[x.router][s].kind == Router <==> Hop(x.router, s) in net.links
  {
  }

  lemma FloodStep(slots: seq<Slot>, s: nat, p: Packet, n: nat)
    requires 0 < n <= |slots|
    ensures Flood(slots, s, p, n)
         == if n - 1 != s && slots[n - 1].kind == Router then Flood(slots, s, p, n - 1) + [Send(n - 1, p)]
            else Flood(slots, s, p, n - 1)
  {
  }

  lemma NoMoves(net: Net, x: Hop)
    ensures Arrivals(net, x.router, []) == Deliveries(net, x.router, []) == [] && AreMoves(net, x, 0, [])
  {
  }

  /** A router that knows the node delivers, and any other forwards to where the packet can move. */
  lemma RoutedGoes(net: Net, p: Packet, x: Hop)
    requires Wired(net) && IsRouted(p) && InNet(net, x) && Unique(net, p.destination)
    ensures var sent := Handled(net.tables[x.router], x.port, p).1;
      && (forall t :: IsHome(net, p.destination, t) && t.router == x.router ==>
            Arrivals(net, x.router, sent) == [] && Deliveries(net, x.router, sent) == [t])
      && ((forall t :: IsHome(net, p.destination, t) ==> t.router != x.router) ==>
            Deliveries(net, x.router, sent) == [] && AreMoves(net, x, PORTS, Arrivals(net, x.router, sent)))
  {
    hide Arrivals, Deliveries, AreMoves, Flood;
    var slots := net.tables[x.router];
    var d := FirstNode(slots, p.destination, 0);
    if d < |slots| {
      assert Handled(slots, x.port, p).1 == [] + [Send(d, p)];
      assert IsHome(net, p.destination, Hop(x.router, d));
      NoMoves(net, x);
      OneSendMore(net, x.router, [], Send(d, p));
      assert [] + [Hop(x.router, d)] == [Hop(x.router, d)];
    } else {
      assert forall t :: IsHome(net, p.destination, t) ==> t.router != x.router;
      FloodArrives(net, x, p, PORTS);
    }
  }

  // What every order of handling keeps.

  ghost predicate Apart(net: Net, x: Hop, y: Hop) {
    forall r: nat :: !(Reaches(net, x, r) && Reaches(net, y, r))
  }

  ghost predicate AllApart(net: Net, xs: seq<Hop>) {
    forall i, j :: 0 <= i < j < |xs| ==> Apart(net, xs[i], xs[j])
  }

  /** The copies on the way can get to different routers only, none of which has handled one. */
  ghost predicate Scattered(net: Net, f: Track) {
    && (forall i :: 0 <= i < |f.pending| ==> InNet(net, f.pending[i]))
    && AllApart(net, f.pending)
    && Distinct(f.handled)
    && (forall r :: r in f.handled ==> r < |net.tables|)
    && (forall r, x :: r in f.handled && x in f.pending ==> !Reaches(net, x, r))
  }

  ghost predicate SomeReaches(net: Net, xs: seq<Hop>, r: nat) {
    exists x :: x in xs && Reaches(net, x, r)
  }

  /** The routers reached from the start are those that handled a copy or that one can get to. */
  ghost predicate Covers(net: Net, start: Hop, home: Option<Hop>, f: Track) {
    && (forall r :: r in f.handled ==> Reaches(net, start, r))
    && (forall x: Hop, r: nat :: x in f.pending && Reaches(net, x, r) ==> Reaches(net, start, r))
    && (home.Some? && Reaches(net, start, home.value.router) ==>
          home.value.router in f.handled || SomeReaches(net, f.pending, home.value.router))
    && f.delivered == if home.Some? && home.value.router in f.handled then [home.value] else []
  }

  ghost predicate IsHomeOf(net: Net, a: Address, home: Option<Hop>) {
    if home.Some? then forall t :: IsHome(net, a, t) <==> t == home.value
    else forall t :: !IsHome(net, a, t)
  }

  lemma OthersApart(net: Net, xs: seq<Hop>, i: nat)
    requires AllApart(net, xs) && i < |xs|
    ensures AllApart(net, Others(xs, i))
    ensures forall x :: x in xs <==> x == xs[i] || x in Others(xs, i)
    ensures forall x :: x in Others(xs, i) ==> Apart(net, xs[i], x)
  {
    hide Reaches;
    var ys := Others(xs, i);
    forall j, k | 0 <= j < k < |ys|
      ensures Apart(net, ys[j], ys[k])
    {
      assert Apart(net, xs[if j < i then j else j + 1], xs[if k < i then k else k + 1]);
    }
    forall x | x in ys
      ensures Apart(net, xs[i], x)
    {
      var j :| 0 <= j < |ys| && ys[j] == x;
      assert Apart(net, xs[if j < i then j else i], xs[if j < i then i else j + 1]);
    }
    forall x | x in xs
      ensures x == xs[i] || x in ys
    {
      var j :| 0 <= j < |xs| && xs[j] == x;
      assert j != i ==> ys[if j < i then j else j - 1] == x;
    }
  }

  lemma JoinedApart(net: Net, xs: seq<Hop>, ys: seq<Hop>)
    requires AllApart(net, xs) && AllApart(net, ys)
    requires forall x, y :: x in xs && y in ys ==> Apart(net, x, y)
    ensures AllApart(net, xs + ys)
  {
    hide Apart;
  }

  /** What can be reached after a move could be reached before it. */
  lemma MoveApart(net: Net, x: Hop, y: Hop, z: Hop)
    requires Wired(net) && Moves(net, x, y) && Apart(net, x, z)
    ensures Apart(net, z, y)
  {
    hide Reaches;
    forall r: nat | Reaches(net, y, r)
      ensures Reaches(net, x, r)
    {
      ReachesOnward(net, x, y, r);
    }
  }

  lemma MovesApart(net: Net, x: Hop, ys: seq<Hop>)
    requires Wired(net) && Acyclic(net) && NoneTwice(ys) && forall y :: y in ys ==> Moves(net, x, y)
    ensures AllApart(net, ys)
  {
    hide Reaches, Acyclic, Moves;
    forall i, j, r: nat | 0 <= i < j < |ys|
      ensures !(Reaches(net, ys[i], r) && Reaches(net, ys[j], r))
    {
      WaysStayApart(net, x, ys[i], ys[j], r);
    }
  }

  /** Handling a copy, whatever is sent on of it, keeps the tracks scattered. */
  lemma StepScatters(net: Net, f: Track, i: nat, ys: seq<Hop>, delivered: seq<Hop>)
    requires Wired(net) && Acyclic(net) && Scattered(net, f) && i < |f.pending|
    requires NoneTwice(ys) && forall y :: y in ys ==> Moves(net, f.pending[i], y)
    ensures Scattered(net, Track(Others(f.pending, i) + ys, f.handled + [f.pending[i].router], delivered))
  {
    hide Reaches, Acyclic, AllApart, Others;
    var x, rest := f.pending[i], Others(f.pending, i);
    ReachesItself(net, x);
    OthersApart(net, f.pending, i);
    MovesApart(net, x, ys);
    forall g, y | g in rest && y in ys
      ensures Apart(net, g, y)
    {
      MoveApart(net, x, y, g);
    }
    JoinedApart(net, rest, ys);
    forall y | y in ys
      ensures InNet(net, y) && forall r :: r in f.handled + [x.router] ==> !Reaches(net, y, r)
    {
      NeverReturns(net, x, y);
      forall r | r in f.handled
        ensures !Reaches(net, y, r)
      {
        if Reaches(net, y, r) {
          ReachesOnward(net, x, y, r);
        }
      }
    }
    var pending := rest + ys;
    forall k | 0 <= k < |pending|
      ensures InNet(net, pending[k])
    {
      assert pending[k] in rest || pending[k] in ys;
    }
  }

  /** What RoutedGoes says, given where the node is. */
  lemma HandleGoes(net: Net, p: Packet, home: Option<Hop>, x: Hop)
    requires Wired(net) && IsRouted(p) && IsHomeOf(net, p.destination, home) && InNet(net, x)
    ensures var sent := Handled(net.tables[x.router], x.port, p).1;
      var ys := Arrivals(net, x.router, sent);
      && NoneTwice(ys) && (forall y :: y in ys ==> Moves(net, x, y))
      && if home.Some? && home.value.router == x.router then Deliveries(net, x.router, sent) == [home.value]
         else Deliveries(net, x.router, sent) == [] && forall y :: Moves(net, x, y) ==> y in ys
  {
    hide Arrivals, Deliveries, Handled, IsHome;
    RoutedGoes(net, p, x);
    if home.Some? && home.value.router == x.router {
      assert IsHome(net, p.destination, home.value);
    }
  }

  lemma StepCovers(net: Net, p: Packet, start: Hop, home: Option<Hop>, f: Track, i: nat)
    requires Wired(net) && Acyclic(net) && IsRouted(p) && IsHomeOf(net, p.destination, home)
    requires Scattered(net, f) && Covers(net, start, home, f) && i < |f.pending|
    ensures Covers(net, start, home, Tracked(net, p, f, i))
  {
    hide Reaches, Acyclic, Others, Arrivals, Deliveries, Handled, IsHomeOf, Moves;
    var x, rest := f.pending[i], Others(f.pending, i);
    var e := Tracked(net, p, f, i);
    HandleGoes(net, p, home, x);
    ReachesItself(net, x);
    OthersApart(net, f.pending, i);
    forall y: Hop, r: nat | y in e.pending && Reaches(net, y, r)
      ensures Reaches(net, start, r)
    {
      if y !in rest {
        ReachesOnward(net, x, y, r);
      }
    }
    if home.Some? && Reaches(net, start, home.value.router) && home.value.router !in e.handled {
      var r := home.value.router;
      var g :| g in f.pending && Reaches(net, g, r);
      if g !in rest {
        var y := ReachesFurther(net, x, r);
        assert y in e.pending;
      }
    }
  }

  /** The copies at the given positions are handled one after the other. */
  ghost predicate TrackSchedule(net: Net, p: Packet, f: Track, picks: seq<nat>)
    decreases |picks|
  {
    picks == [] ||
    (picks[0] < |f.pending| && InNet(net, f.pending[picks[0]]) &&
     TrackSchedule(net, p, Tracked(net, p, f, picks[0]), picks[1..]))
  }

  ghost function TrackAfter(net: Net, p: Packet, f: Track, picks: seq<nat>): Track
    requires TrackSchedule(net, p, f, picks)
    decreases |picks|
  {
    if picks == [] then f else TrackAfter(net, p, Tracked(net, p, f, picks[0]), picks[1..])
  }

  lemma OneHandled(net: Net, p: Packet, start: Hop, home: Option<Hop>, f: Track, i: nat)
    requires Wired(net) && Acyclic(net) && IsRouted(p) && IsHomeOf(net, p.destination, home)
    requires Scattered(net, f) && Covers(net, start, home, f) && i < |f.pending|
    ensures InNet(net, f.pending[i])
    ensures var e := Tracked(net, p, f, i);
      && Scattered(net, e) && Covers(net, start, home, e)
      && |f.handled| + 1 == |e.handled| <= |net.tables|
  {
    hide Reaches, AllApart, Covers, Acyclic, Wired, IsHomeOf, Arrivals, Deliveries, Handled;
    var x := f.pending[i];
    HandleGoes(net, p, home, x);
    StepScatters(net, f, i, Arrivals(net, x.router, Handled(net.tables[x.router], x.port, p).1),
                 Tracked(net, p, f, i).delivered);
    StepCovers(net, p, start, home, f, i);
    var handled := Tracked(net, p, f, i).handled;
    assert forall k :: 0 <= k < |handled| ==> handled[k] in handled;
    DistinctBelow(|net.tables|, handled);
  }

  lemma {:induction false} RunKeeps(net: Net, p: Packet, start: Hop, home: Option<Hop>, f: Track, picks: seq<nat>)
    requires Wired(net) && Acyclic(net) && IsRouted(p) && IsHomeOf(net, p.destination, home)
    requires Scattered(net, f) && Covers(net, start, home, f) && TrackSchedule(net, p, f, picks)
    ensures var e := TrackAfter(net, p, f, picks);
      Scattered(net, e) && Covers(net, start, home, e) && |e.handled| == |f.handled| + |picks|
    decreases |picks|
  {
    hide Scattered, Covers, Acyclic, Wired, IsHomeOf, Tracked;
    if picks != [] {
      OneHandled(net, p, start, home, f, picks[0]);
      RunKeeps(net, p, start, home, Tracked(net, p, f, picks[0]), picks[1..]);
    }
  }

  /** From any such tracks forwarding can be brought to its end. */
  lemma {:induction false} CanBeFinished(net: Net, p: Packet, start: Hop, home: Option<Hop>, f: Track)
    returns (picks: seq<nat>)
    requires Wired(net) && Acyclic(net) && IsRouted(p) && IsHomeOf(net, p.destination, home)
    requires Scattered(net, f) && Covers(net, start, home, f)
    ensures TrackSchedule(net, p, f, picks) && TrackAfter(net, p, f, picks).pending == []
    decreases |net.tables| - |f.handled|
  {
    hide Scattered, Covers, Acyclic, Wired, IsHomeOf, Tracked;
    picks := [];
    if f.pending != [] {
      OneHandled(net, p, start, home, f, 0);
      var rest := CanBeFinished(net, p, start, home, Tracked(net, p, f, 0));
      picks := [0] + rest;
      assert picks[1..] == rest;
    }
  }

  lemma StartIsFine(net: Net, start: Hop, home: Option<Hop>)
    requires Wired(net) && InNet(net, start)
    ensures Scattered(net, Track([start], [], [])) && Covers(net, start, home, Track([start], [], []))
  {
    if home.Some? && Reaches(net, start, home.value.router) {
      assert SomeReaches(net, [start], home.value.router);
    }
  }

  /**
   * In an acyclic network with unique addresses, whatever the order of handling, no router
   * handles a packet twice, so forwarding stops; every copy on the way is at a port where it can
   * be handled; the packet is delivered to the node that it is
   * for at most once and to no other; and once forwarding has stopped, it has been delivered
   * exactly if the node's router can be reached from where the packet came in.
   */
  lemma TracksEnd(net: Net, p: Packet, start: Hop, home: Option<Hop>, picks: seq<nat>)
    requires Wired(net) && Acyclic(net) && IsRouted(p) && IsHomeOf(net, p.destination, home) && InNet(net, start)
    requires TrackSchedule(net, p, Track([start], [], []), picks)
    ensures var e := TrackAfter(net, p, Track([start], [], []), picks);
      && Distinct(e.handled) && |e.handled| == |picks| <= |net.tables|
      && (forall i :: 0 <= i < |e.pending| ==> InNet(net, e.pending[i]))
      && (e.delivered == [] || (home.Some? && e.delivered == [home.value] && Reaches(net, start, home.value.router)))
      && (e.pending == [] ==>
            (e.delivered != [] <==> home.Some? && Reaches(net, start, home.value.router)))
  {
    hide Reaches, Acyclic, Wired, IsHomeOf, TrackSchedule, TrackAfter;
    StartIsFine(net, start, home);
    RunKeeps(net, p, start, home, Track([start], [], []), picks);
    var handled := TrackAfter(net, p, Track([start], [], []), picks).handled;
    assert forall i :: 0 <= i < |handled| ==> handled[i] in handled;
    DistinctBelow(|net.tables|, handled);
  }

  // The copies themselves.

  /** A copy of a packet that waits at a port, or has gone out at one. */
  datatype Copy = Copy(at: Hop, packet: Packet)

  /** The copies on the way, the routers that have handled one, and what the nodes have got. */
  datatype Flight = Flight(pending: seq<Copy>, handled: seq<nat>, delivered: seq<Copy>)

  /** What the packets that router r sends become when they come in at other routers. */
  ghost function ArrivingCopies(net: Net, r: nat, sent: seq<Send>): seq<Copy> {
    if sent == [] then []
    else
      var n := |sent| - 1;
      var h := Hop(r, sent[n].port);
      ArrivingCopies(net, r, sent[..n]) + if h in net.links then [Copy(net.links[h], sent[n].packet)] else []
  }

  /** What goes out on ports that are no links. */
  ghost function DeliveredCopies(net: Net, r: nat, sent: seq<Send>): seq<Copy> {
    if sent == [] then []
    else
      var n := |sent| - 1;
      var h := Hop(r, sent[n].port);
      DeliveredCopies(net, r, sent[..n]) + if h in net.links then [] else [Copy(h, sent[n].packet)]
  }

  /** The flight after the copy at position i is handled by the router where it has come in. */
  ghost function Handle(net: Net, f: Flight, i: nat): Flight
    requires i < |f.pending| && InNet(net, f.pending[i].at)
  {
    var x := f.pending[i];
    var sent := Handled(net.tables[x.at.router], x.at.port, x.packet).1;
    Flight(f.pending[..i] + f.pending[i + 1..] + ArrivingCopies(net, x.at.router, sent),
           f.handled + [x.at.router],
           f.delivered + DeliveredCopies(net, x.at.router, sent))
  }

  /** The copies at the given positions are handled one after the other. */
  ghost predicate Schedule(net: Net, f: Flight, picks: seq<nat>)
    decreases |picks|
  {
    picks == [] ||
    (picks[0] < |f.pending| && InNet(net, f.pending[picks[0]].at) &&
     Schedule(net, Handle(net, f, picks[0]), picks[1..]))
  }

  ghost function FlightAfter(net: Net, f: Flight, picks: seq<nat>): Flight
    requires Schedule(net, f, picks)
    decreases |picks|
  {
    if picks == [] then f else FlightAfter(net, Handle(net, f, picks[0]), picks[1..])
  }

  ghost function Carrying(xs: seq<Hop>, p: Packet): (cs: seq<Copy>)
    ensures |cs| == |xs| && forall i :: 0 <= i < |xs| ==> cs[i] == Copy(xs[i], p)
  {
    seq(|xs|, i requires 0 <= i < |xs| => Copy(xs[i], p))
  }

  /** The flight on these tracks whose copies are all the one packet. */
  ghost function FlightOf(f: Track, p: Packet): Flight {
    Flight(Carrying(f.pending, p), f.handled, Carrying(f.delivered, p))
  }

  lemma CarryingMore(xs: seq<Hop>, ys: seq<Hop>, p: Packet)
    ensures Carrying(xs + ys, p) == Carrying(xs, p) + Carrying(ys, p)
  {
  }

  lemma {:induction false} SentCopies(net: Net, r: nat, sent: seq<Send>, p: Packet)
    requires forall x :: x in sent ==> x.packet == p
    ensures ArrivingCopies(net, r, sent) == Carrying(Arrivals(net, r, sent), p)
    ensures DeliveredCopies(net, r, sent) == Carrying(Deliveries(net, r, sent), p)
  {
    if sent != [] {
      var n := |sent| - 1;
      assert sent[n] in sent;
      SentCopies(net, r, sent[..n], p);
      var h := Hop(r, sent[n].port);
      CarryingMore(Arrivals(net, r, sent[..n]), if h in net.links then [net.links[h]] else [], p);
      CarryingMore(Deliveries(net, r, sent[..n]), if h in net.links then [] else [h], p);
    }
  }

  /** Routers send packets on unchanged: each copy on the way, and each delivered, is the packet. */
  lemma CopiesAreThePacket(net: Net, p: Packet, f: Track, i: nat)
    requires IsRouted(p) && i < |f.pending| && InNet(net, f.pending[i])
    ensures Handle(net, FlightOf(f, p), i) == FlightOf(Tracked(net, p, f, i), p)
  {
    hide Arrivals, Deliveries, ArrivingCopies, DeliveredCopies, Handled;
    var x := f.pending[i];
    var sent := Handled(net.tables[x.router], x.port, p).1;
    NotForRouters(p);
    SentIsReceived(net.tables[x.router], x.port, p);
    SentCopies(net, x.router, sent, p);
    CarryingMore(Others(f.pending, i), Arrivals(net, x.router, sent), p);
    CarryingMore(f.delivered, Deliveries(net, x.router, sent), p);
    CarryingOthers(f.pending, i, p);
  }

  lemma NotForRouters(p: Packet)
    requires IsRouted(p)
    ensures !IsForRouters(p)
  {
  }

  lemma CarryingOthers(xs: seq<Hop>, i: nat, p: Packet)
    requires i < |xs|
    ensures Carrying(Others(xs, i), p) == Carrying(xs, p)[..i] + Carrying(xs, p)[i + 1..]
  {
  }

  lemma {:induction false} FlightFollowsTracks(net: Net, p: Packet, f: Track, picks: seq<nat>)
    requires IsRouted(p)
    ensures Schedule(net, FlightOf(f, p), picks) <==> TrackSchedule(net, p, f, picks)
    ensures Schedule(net, FlightOf(f, p), picks) ==>
              FlightAfter(net, FlightOf(f, p), picks) == FlightOf(TrackAfter(net, p, f, picks), p)
    decreases |picks|
  {
    hide Handle, Tracked;
    if picks != [] && picks[0] < |f.pending| && InNet(net, f.pending[picks[0]]) {
      CopiesAreThePacket(net, p, f, picks[0]);
      FlightFollowsTracks(net, p, Tracked(net, p, f, picks[0]), picks[1..]);
    }
  }

  /** A packet comes in at a port, and nothing has happened yet. */
  ghost function Departure(start: Hop, p: Packet): Flight {
    Flight([Copy(start, p)], [], [])
  }

  lemma DepartureIs(start: Hop, p: Packet)
    ensures Departure(start, p) == FlightOf(Track([start], [], []), p)
  {
  }

  /**
   * In an acyclic network with unique addresses, whatever the order of handling, no router handles
   * a packet twice, so forwarding stops; every copy on the way is the packet itself, at a port
   * where it can be handled; what is delivered is the packet itself, to the node that it is for
   * and at most once; and once forwarding has stopped, it has been delivered exactly if the node's
   * router can be reached from where the packet came in.
   */
  lemma DeliveredExactlyOnce(net: Net, p: Packet, start: Hop, home: Option<Hop>, picks: seq<nat>)
    requires Wired(net) && Acyclic(net) && IsRouted(p) && IsHomeOf(net, p.destination, home) && InNet(net, start)
    requires Schedule(net, Departure(start, p), picks)
    ensures var e := FlightAfter(net, Departure(start, p), picks);
      && Distinct(e.handled) && |e.handled| == |picks| <= |net.tables|
      && (forall i :: 0 <= i < |e.pending| ==> InNet(net, e.pending[i].at) && e.pending[i].packet == p)
      && (e.delivered == [] ||
          (home.Some? && e.delivered == [Copy(home.value, p)] && Reaches(net, start, home.value.router)))
      && (e.pending == [] ==>
            (e.delivered != [] <==> home.Some? && Reaches(net, start, home.value.router)))
  {
    hide Reaches, Acyclic, Wired, IsHomeOf, Schedule, FlightAfter, TrackSchedule, TrackAfter, Departure;
    DepartureIs(start, p);
    FlightFollowsTracks(net, p, Track([start], [], []), picks);
    TracksEnd(net, p, start, home, picks);
  }

  /** And forwarding can be brought to its end. */
  lemma FlightCanEnd(net: Net, p: Packet, start: Hop, home: Option<Hop>) returns (picks: seq<nat>)
    requires Wired(net) && Acyclic(net) && IsRouted(p) && IsHomeOf(net, p.destination, home) && InNet(net, start)
    ensures Schedule(net, Departure(start, p), picks) && FlightAfter(net, Departure(start, p), picks).pending == []
  {
    hide Acyclic, Wired, IsHomeOf, Schedule, FlightAfter, TrackSchedule, TrackAfter, Departure, Scattered, Covers;
    StartIsFine(net, start, home);
    picks := CanBeFinished(net, p, start, home, Track([start], [], []));
    DepartureIs(start, p);
    FlightFollowsTracks(net, p, Track([start], [], []), picks);
  }

  /** For a packet from a node, that is: exactly if the two routers are connected at all. */
  lemma DeliveredIffConnected(net: Net, p: Packet, start: Hop, home: Hop, picks: seq<nat>)
    requires Wired(net) && Acyclic(net) && IsRouted(p) && IsHomeOf(net, p.destination, Some(home))
    requires InNet(net, start) && start !in net.links
    requires Schedule(net, Departure(start, p), picks)
    requires FlightAfter(net, Departure(start, p), picks).pending == []
    ensures FlightAfter(net, Departure(start, p), picks).delivered
         == if Connected(net, start.router, home.router) then [Copy(home, p)] else []
  {
    hide Acyclic, Wired, IsHomeOf, Schedule, FlightAfter, Connected;
    DeliveredExactlyOnce(net, p, start, Some(home), picks);
    ReachesIffConnected(net, start, home.router);
  }
}
