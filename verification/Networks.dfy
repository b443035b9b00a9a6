/**
 * Routers wired together port to port, and where packets can get in such a network.
 *
 * A hop is a packet's arrival at a port of a router. A walk is a sequence of hops each of which
 * a router that does not send a packet back where it came from can cause from the one before.
 */
module Networks {
  import opened Routing

  datatype Hop = Hop(router: nat, port: nat)

  /** The tables of all routers, and for each port that leads to a router the port at the other end. */
  datatype Net = Net(tables: seq<seq<Slot>>, links: map<Hop, Hop>)

  /** Links join ports in pairs, and the tables know exactly the linked ports as routers. */
  ghost predicate Wired(net: Net) {
    && (forall r :: 0 <= r < |net.tables| ==> |net.tables[r]| == PORTS)
    && (forall h :: h in net.links ==>
          && h.router < |net.tables| && h.port < PORTS
          && net.links[h] in net.links && net.links[net.links[h]] == h)
    && (forall r: nat, d: nat :: r < |net.tables| && d < PORTS ==>
          (Hop(r, d) in net.links <==> net.tables[r][d].kind == Router))
  }

  /** Forwarding a packet that came in at x, on a port other than its own, makes it come in at y. */
  ghost predicate Moves(net: Net, x: Hop, y: Hop) {
    y in net.links && net.links[y].router == x.router && net.links[y].port != x.port
  }

  ghost predicate Walk(net: Net, w: seq<Hop>) {
    && |w| > 0 && w[0].router < |net.tables|
    && forall i :: 0 <= i < |w| - 1 ==> Moves(net, w[i], w[i + 1])
  }

  /** No walk comes back to the router where it began. */
  ghost predicate Acyclic(net: Net) {
    forall w: seq<Hop> :: Walk(net, w) && |w| > 1 ==> w[0].router != w[|w| - 1].router
  }

  ghost predicate Leads(net: Net, w: seq<Hop>, x: Hop, r: nat) {
    Walk(net, w) && w[0] == x && w[|w| - 1].router == r
  }

  /** A packet that has come in at x can get to router r. */
  ghost predicate Reaches(net: Net, x: Hop, r: nat) {
    exists w: seq<Hop> :: Leads(net, w, x, r)
  }

  lemma ReachesItself(net: Net, x: Hop)
    requires x.router < |net.tables|
    ensures Reaches(net, x, x.router)
  {
    assert Leads(net, [x], x, x.router);
  }

  lemma WalkFrom(net: Net, x: Hop, w: seq<Hop>)
    requires Wired(net) && Walk(net, w) && Moves(net, x, w[0])
    ensures Walk(net, [x] + w)
  {
    var v := [x] + w;
    forall i | 0 <= i < |v| - 1
      ensures Moves(net, v[i], v[i + 1])
    {
      assert i > 0 ==> Moves(net, w[i - 1], w[i]);
    }
  }

  lemma ReachesOnward(net: Net, x: Hop, y: Hop, r: nat)
    requires Wired(net) && Moves(net, x, y) && Reaches(net, y, r)
    ensures Reaches(net, x, r)
  {
    var w :| Leads(net, w, y, r);
    WalkFrom(net, x, w);
    assert Leads(net, [x] + w, x, r);
  }

  lemma ReachesFurther(net: Net, x: Hop, r: nat) returns (y: Hop)
    requires Wired(net) && Reaches(net, x, r) && r != x.router
    ensures Moves(net, x, y) && Reaches(net, y, r)
  {
    var w :| Leads(net, w, x, r);
    y := w[1];
    RestIsWalk(net, w);
    assert Leads(net, w[1..], y, r);
  }

  lemma RestIsWalk(net: Net, w: seq<Hop>)
    requires Wired(net) && Walk(net, w) && |w| > 1
    ensures Moves(net, w[0], w[1]) && Walk(net, w[1..])
  {
    assert Moves(net, w[0], w[1]);
    var v := w[1..];
    forall i | 0 <= i < |v| - 1
      ensures Moves(net, v[i], v[i + 1])
    {
      assert Moves(net, w[i + 1], w[i + 2]);
    }
  }

  lemma NeverReturns(net: Net, x: Hop, y: Hop)
    requires Wired(net) && Acyclic(net) && Moves(net, x, y)
    ensures !Reaches(net, y, x.router)
  {
    forall w: seq<Hop> | Walk(net, w) && w[0] == y
      ensures w[|w| - 1].router != x.router
    {
      WalkFrom(net, x, w);
      var v := [x] + w;
      assert v[0].router != v[|v| - 1].router;
    }
  }

  // Two ways out of one router never meet again.

  lemma WalkCrossesLinks(net: Net, w: seq<Hop>)
    requires Walk(net, w)
    ensures forall i :: 1 <= i < |w| ==> w[i] in net.links
  {
    forall i | 1 <= i < |w|
      ensures w[i] in net.links
    {
      assert Moves(net, w[i - 1], w[i]);
    }
  }

  /** The walk w taken backwards, from its last router to the one where it began. */
  ghost function Back(net: Net, w: seq<Hop>): (v: seq<Hop>)
    requires Wired(net) && Walk(net, w)
    ensures |v| == |w|
    ensures v[0] == Hop(w[|w| - 1].router, w[|w| - 1].port + 1)
    ensures forall i :: 1 <= i < |w| ==> w[|w| - i] in net.links && v[i] == net.links[w[|w| - i]]
  {
    WalkCrossesLinks(net, w);
    seq(|w|, i requires 0 <= i < |w| =>
      if i == 0 then Hop(w[|w| - 1].router, w[|w| - 1].port + 1) else net.links[w[|w| - i]])
  }

  lemma BackIsWalk(net: Net, w: seq<Hop>)
    requires Wired(net) && Walk(net, w)
    ensures Walk(net, Back(net, w))
  {
    var v := Back(net, w);
    LastIsInside(net, w, |w| - 1);
    forall i | 0 <= i < |v| - 1
      ensures Moves(net, v[i], v[i + 1])
    {
      var m := |w| - i - 1;
      assert Moves(net, w[m - 1], w[m]);
      assert i > 0 ==> Moves(net, w[m], w[m + 1]);
    }
  }

  lemma LastIsInside(net: Net, w: seq<Hop>, i: nat)
    requires Wired(net) && Walk(net, w) && i < |w|
    ensures w[i].router < |net.tables|
  {
    if i > 0 {
      assert Moves(net, w[i - 1], w[i]);
    }
  }

  lemma Joined(net: Net, v: seq<Hop>, w: seq<Hop>)
    requires Walk(net, v) && Walk(net, w) && Moves(net, v[|v| - 1], w[0])
    ensures Walk(net, v + w)
  {
    var u := v + w;
    forall i | 0 <= i < |u| - 1
      ensures Moves(net, u[i], u[i + 1])
    {
      if i < |v| - 1 {
        assert Moves(net, v[i], v[i + 1]);
      } else if i >= |v| {
        assert Moves(net, w[i - |v|], w[i - |v| + 1]);
      }
    }
  }

  /** In an acyclic network no router is reached through two different neighbours. */
  lemma WaysStayApart(net: Net, x: Hop, y: Hop, z: Hop, r: nat)
    requires Wired(net) && Acyclic(net) && Moves(net, x, y) && Moves(net, x, z) && y != z
    ensures !(Reaches(net, y, r) && Reaches(net, z, r))
  {
    if Reaches(net, y, r) && Reaches(net, z, r) {
      var v :| Leads(net, v, y, r);
      var w :| Leads(net, w, z, r);
      Detour(net, x, v, w);
    }
  }

  lemma Detour(net: Net, x: Hop, v: seq<Hop>, w: seq<Hop>)
    requires Wired(net) && Acyclic(net) && Walk(net, v) && Walk(net, w) && v[0] != w[0]
    requires Moves(net, x, v[0]) && Moves(net, x, w[0])
    ensures v[|v| - 1].router != w[|w| - 1].router
  {
    WalkFrom(net, x, v);
    var out := [x] + v;
    BackIsWalk(net, out);
    var back := Back(net, out);
    assert back[|v|] == net.links[out[1]] == net.links[v[0]];
    Joined(net, back, w);
    assert (back + w)[0].router == v[|v| - 1].router;
  }

  // Being connected.

  /** A sequence of routers each linked to the next, in whatever way. */
  ghost predicate Path(net: Net, rs: seq<nat>) {
    |rs| > 0 && rs[0] < |net.tables| && forall i :: 0 <= i < |rs| - 1 ==> Neighbours(net, rs[i], rs[i + 1])
  }

  ghost predicate Neighbours(net: Net, r: nat, q: nat) {
    exists h :: h in net.links && h.router == q && net.links[h].router == r
  }

  ghost predicate Connected(net: Net, r: nat, q: nat) {
    exists rs: seq<nat> :: Path(net, rs) && rs[0] == r && rs[|rs| - 1] == q
  }

  /** A walk passes from neighbour to neighbour. */
  lemma {:induction false} WalkIsPath(net: Net, w: seq<Hop>)
    requires Wired(net) && Walk(net, w)
    ensures Connected(net, w[0].router, w[|w| - 1].router)
  {
    var n := |w| - 1;
    if n == 0 {
      assert Path(net, [w[0].router]);
    } else {
      assert Walk(net, w[..n]);
      WalkIsPath(net, w[..n]);
      var rs :| Path(net, rs) && rs[0] == w[0].router && rs[|rs| - 1] == w[n - 1].router;
      assert Moves(net, w[n - 1], w[n]);
      assert Neighbours(net, w[n - 1].router, w[n].router);
      assert Path(net, rs + [w[n].router]);
    }
  }

  /** Going to a neighbour is one move more, or else a move back along the walk. */
  lemma OneFurther(net: Net, x: Hop, w: seq<Hop>, q: nat)
    requires Wired(net) && Walk(net, w) && w[0] == x && x !in net.links
    requires Neighbours(net, w[|w| - 1].router, q)
    ensures Reaches(net, x, q)
  {
    var n := |w| - 1;
    var h :| h in net.links && h.router == q && net.links[h].router == w[n].router;
    if net.links[h].port != w[n].port {
      assert Moves(net, w[n], h);
      Joined(net, w, [h]);
      assert Leads(net, w + [h], x, q);
    } else {
      assert w[n] == net.links[h];
      assert n > 0 && Moves(net, w[n - 1], w[n]);
      assert Leads(net, w[..n], x, q);
    }
  }

  /** From a port that is no link, the routers reached without turning back are those connected. */
  lemma {:induction false} ReachesIffConnected(net: Net, x: Hop, q: nat)
    requires Wired(net) && x.router < |net.tables| && x !in net.links
    ensures Reaches(net, x, q) <==> Connected(net, x.router, q)
  {
    if Reaches(net, x, q) {
      var w :| Leads(net, w, x, q);
      WalkIsPath(net, w);
    }
    if Connected(net, x.router, q) {
      var rs :| Path(net, rs) && rs[0] == x.router && rs[|rs| - 1] == q;
      PathIsReached(net, x, rs);
    }
  }

  lemma {:induction false} PathIsReached(net: Net, x: Hop, rs: seq<nat>)
    requires Wired(net) && x !in net.links && Path(net, rs) && rs[0] == x.router
    ensures Reaches(net, x, rs[|rs| - 1])
  {
    var n := |rs| - 1;
    if n == 0 {
      ReachesItself(net, x);
    } else {
      assert Path(net, rs[..n]);
      PathIsReached(net, x, rs[..n]);
      var w :| Leads(net, w, x, rs[n - 1]);
      assert Neighbours(net, rs[n - 1], rs[n]);
      OneFurther(net, x, w, rs[n]);
    }
  }
}
