/**
 * When a router asks its neighbours again, and when it looks for devices plugged in since: a
 * cycle of 24611 turns of port 0, whatever the other ports do.
 */
module RouterTiming {
  import opened Arithmetic
  import opened Routing
  import opened RoutingRuns

  /** Three intervals of 1001 turns, and eight of 2701. */
  const CYCLE := 24611

  ghost predicate InCycle(t: Timing) {
    && |t.counters| == PORTS && t.timeOut <= 10
    && t.rate == (if t.timeOut <= 2 then 1000 else 2700)
    && t.counters[0] <= t.rate
  }

  /** How far port 0 is into the cycle. */
  ghost function Phase(t: Timing): (k: nat)
    requires InCycle(t)
    ensures k < CYCLE
  {
    if t.timeOut <= 2 then t.timeOut * 1001 + t.counters[0]
    else 3003 + (t.timeOut - 3) * 2701 + t.counters[0]
  }

  /** The router looks for new devices on this turn. */
  ghost predicate Looks(t: Timing, s: nat)
    requires s < |t.counters|
  {
    Due(t, s) && TimedOut(t, s) > 10
  }

  /**
   * A turn of port 0 moves the cycle on by one, and at its end the router looks for new devices;
   * a turn of another port leaves the cycle alone.
   */
  lemma PhaseMovesOn(t: Timing, s: nat)
    requires InCycle(t) && s < PORTS
    ensures var t' := TimingAfter(t, s);
      && InCycle(t')
      && Phase(t') == (if s == 0 then (Phase(t) + 1) % CYCLE else Phase(t))
      && (Looks(t, s) <==> s == 0 && Phase(t') == 0)
  {
  }

  /** Up to phase 3003 the ports are due every 1001 of their turns, and then every 2701. */
  lemma RateOfPhase(t: Timing)
    requires InCycle(t)
    ensures t.rate == if Phase(t) < 3003 then 1000 else 2700
  {
  }

  /** The counter of a port tells the turns since it was due; the others stay. */
  lemma CounterCounts(t: Timing, s: nat)
    requires InCycle(t) && s < PORTS
    ensures var t', d := TimingAfter(t, s), t.counters[s] >= (if Phase(t) < 3003 then 1000 else 2700);
      && (Due(t, s) <==> d)
      && t'.counters[s] == (if d then 0 else t.counters[s] + 1)
      && forall i :: 0 <= i < PORTS && i != s ==> t'.counters[i] == t.counters[i]
  {
    RateOfPhase(t);
  }

  /** What a turn sends before it looks for a packet, and which devices it finds. */
  lemma TickedSends(st: State, s: nat, present: seq<bool>)
    requires IsState(st) && s < PORTS == |present|
    ensures var (e, sent) := Ticked(st, s, present);
      var looks := Looks(st.timing, s);
      && e.timing == TimingAfter(st.timing, s)
      && (forall i :: 0 <= i < PORTS ==>
            e.slots[i] == Slot(st.slots[i].detected || (looks && st.slots[i].kind == Unknown && present[i]),
                               st.slots[i].kind, st.slots[i].address))
      && (forall x :: x in sent <==>
            && x.packet == ROUTER_REQUEST && x.port < PORTS
            && ((Due(st.timing, s) && x.port == s && st.slots[s].kind == Router) ||
                (looks && e.slots[x.port].detected && st.slots[x.port].kind == Unknown)))
      && forall i, j :: 0 <= i < j < |sent| ==> sent[i].port != sent[j].port
  {
    hide TimingAfter, Due, TimedOut;
  }

  // Whole runs.

  ghost function TurnsOf(run: seq<Turn>, s: nat): nat {
    if run == [] then 0
    else TurnsOf(run[..|run| - 1], s) + if run[|run| - 1].port == s then 1 else 0
  }

  /** After any run the phase tells the turns that port 0 has had. */
  lemma {:induction false} PhaseOfRun(st: State, run: seq<Turn>)
    requires IsState(st) && Turns(run) && InCycle(st.timing)
    ensures var t := After(st, run).timing;
      InCycle(t) && Phase(t) == (Phase(st.timing) + TurnsOf(run, 0)) % CYCLE
  {
    hide Ticked, TimingAfter, Handled, InCycle, Phase;
    if run != [] {
      var n := |run| - 1;
      var before := After(st, run[..n]);
      PhaseOfRun(st, run[..n]);
      PhaseMovesOn(before.timing, run[n].port);
      TickedSends(before, run[n].port, run[n].present);
    }
  }

  /**
   * So from power on the router looks for new devices exactly on every 24611th turn of port 0,
   * however the turns of the ports are mixed.
   */
  lemma LooksEveryCycle(st: State, run: seq<Turn>, turn: Turn)
    requires IsState(st) && Turns(run) && turn.port < PORTS
    requires st.timing == Timing(seq(PORTS, _ => 0), 0, 1000)
    ensures Looks(After(st, run).timing, turn.port)
       <==> turn.port == 0 && (TurnsOf(run, 0) + 1) % CYCLE == 0
  {
    hide TimingAfter, Looks, InCycle, Phase;
    CycleStarts(st.timing);
    PhaseOfRun(st, run);
    PhaseMovesOn(After(st, run).timing, turn.port);
    RemainderOfSum(TurnsOf(run, 0), TurnsOf(run, 0) % CYCLE, 1, CYCLE);
  }

  lemma CycleStarts(t: Timing)
    requires t == Timing(seq(PORTS, _ => 0), 0, 1000)
    ensures InCycle(t) && Phase(t) == 0
  {
  }
}
