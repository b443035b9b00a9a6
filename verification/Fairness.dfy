/**
 * What the scheduler guarantees over whole runs: at most one process runs at a time, the
 * environment is put back, and every process gets its exact share.
 */
module Fairness {
  import opened Words
  import opened Arithmetic
  import opened FirstFit
  import opened Scheduling

  // While a process runs.

  /** All of a task but what the timer writes. */
  ghost predicate SameButWatched(t: Task, u: Task) {
    u == t.(timeSlice := u.timeSlice, flags := u.flags) && (u.flags == t.flags || u.flags == ShutdownRequested(t.flags))
  }

  lemma RequestedTwice(flags: Byte)
    ensures ShutdownRequested(ShutdownRequested(flags)) == ShutdownRequested(flags)
  {
    if flags / 2 % 2 == 0 {
      assert (flags + 2) / 2 == flags / 2 + 1;
    }
  }

  /**
   * Whatever strikes while a process runs, no other process is started, the turn does not move,
   * and of the process list only the time slice and the shutdown flag of the runner can change.
   */
  lemma {:induction false} NothingElseRuns(st: State, during: seq<Happening>)
    requires IsState(st) && st.active
    ensures var e := TaskRun(st, during);
      && e.active && e.locked && e.procIndex == st.procIndex && |e.tasks| == |st.tasks|
      && SameButWatched(st.tasks[st.procIndex], e.tasks[st.procIndex])
      && (forall j :: 0 <= j < |st.tasks| && j != st.procIndex ==> e.tasks[j] == st.tasks[j])
    ensures MainTicked(TaskRun(st, during), []) == (TaskRun(st, during), None)
  {
    hide MainTicked;
    if during != [] {
      var n := |during| - 1;
      NothingElseRuns(st, during[..n]);
      RequestedTwice(st.tasks[st.procIndex].flags);
    }
  }

  /** The scheduler at rest: nothing runs, and no restriction on heap or super block is left. */
  ghost predicate AtRest(st: State) {
    !st.active && !st.locked && st.heap == WHOLE_HEAP && st.superBlock == 0
  }

  /**
   * A turn that takes the mutex releases it again, with the whole heap and no super block, and
   * keeps the process list but for counters, flags and time slices.
   */
  lemma TurnRestores(st: State, during: seq<Happening>)
    requires IsState(st) && !st.locked && st.tasks != []
    ensures var e := MainTicked(st, during).0;
      && AtRest(e) && |e.tasks| == |st.tasks| && e.access == WindowOf(ModeOf(st.access))
      && forall j :: 0 <= j < |st.tasks| ==>
           e.tasks[j] == st.tasks[j].(counter := e.tasks[j].counter, flags := e.tasks[j].flags,
                                      timeSlice := e.tasks[j].timeSlice)
  {
    hide TaskRun;
    var i := NextIndex(st);
    if st.tasks[i].counter > st.tasks[i].priority {
      NothingElseRuns(Launched(Entered(st)), during);
    }
  }

  /** The access mode after a turn is the one before it exactly when there was one. */
  lemma ModeIsRestoredIff(st: State, during: seq<Happening>)
    requires IsState(st) && !st.locked && st.tasks != []
    ensures ModeOf(MainTicked(st, during).0.access) == ModeOf(st.access) <==> ModeOf(st.access) != Neither
    ensures MainTicked(st, during).0.access == st.access <==> st.access in {KERNEL_WINDOW, USER_WINDOW}
    ensures MainTicked(st, during).0.access == Window(if st.access.begin == 0x4000 then 0x4000 else 0, 0xffff_ffff)
  {
    hide MainTicked;
    TurnRestores(st, during);
  }

  // Whole runs.

  datatype Interrupt = Main(during: seq<Happening>) | Timer

  ghost function Struck(st: State, x: Interrupt): (st': State)
    requires IsState(st)
    ensures IsState(st') && |st'.tasks| == |st.tasks|
  {
    match x
    case Main(during) => MainTicked(st, during).0
    case Timer => TimerTicked(st)
  }

  ghost function After(st: State, run: seq<Interrupt>): (st': State)
    requires IsState(st)
    ensures IsState(st') && |st'.tasks| == |st.tasks|
  {
    if run == [] then st else Struck(After(st, run[..|run| - 1]), run[|run| - 1])
  }

  /** Between interrupts the scheduler is always at rest, in a mode that setting a mode can set. */
  lemma {:induction false} RestsBetweenInterrupts(st: State, run: seq<Interrupt>)
    requires IsState(st) && AtRest(st) && st.access in {KERNEL_WINDOW, USER_WINDOW}
    ensures AtRest(After(st, run)) && After(st, run).access == st.access
  {
    hide MainTicked;
    if run != [] {
      var n := |run| - 1;
      var before := After(st, run[..n]);
      RestsBetweenInterrupts(st, run[..n]);
      if run[n].Main? && before.tasks != [] {
        TurnRestores(before, run[n].during);
        ModeIsRestoredIff(before, run[n].during);
      } else if run[n].Main? {
        NoTasks(before, run[n].during);
      }
    }
  }

  lemma NoTasks(st: State, during: seq<Happening>)
    requires IsState(st) && st.tasks == []
    ensures MainTicked(st, during) == (st, None)
  {
  }

  // The share of a process.

  /** The first process from index j on that is to run once, or the number of processes. */
  ghost function FirstVolatile(tasks: seq<Task>, j: nat): (k: nat)
    requires j <= |tasks|
    ensures j <= k <= |tasks| && (k < |tasks| ==> tasks[k].kind == VOLATILE)
    ensures forall i :: j <= i < k ==> tasks[i].kind != VOLATILE
    decreases |tasks| - j
  {
    if j == |tasks| || tasks[j].kind == VOLATILE then j else FirstVolatile(tasks, j + 1)
  }

  /**
   * The length of the cycle in which the turn goes round: a process that is to run once, other
   * than the first one, stays in the list and sends the turn back to the start.
   */
  ghost function Cycle(st: State): (c: nat)
    requires st.tasks != []
    ensures 1 <= c <= |st.tasks|
  {
    FirstVolatile(st.tasks, 1)
  }

  /** The scheduler is at rest, and the turn is in its cycle. */
  ghost predicate Fair(st: State) {
    AtRest(st) && st.tasks != [] && st.procIndex < Cycle(st)
  }

  /** The processes that the turn comes to: all, or those up to the one that sends it back. */
  ghost predicate InCycle(st: State, v: nat)
    requires st.tasks != []
  {
    if Cycle(st) == |st.tasks| then v < |st.tasks| else 1 <= v <= Cycle(st)
  }

  /** The main interrupts that pass before the one that runs process v next. */
  ghost function Countdown(st: State, v: nat): int
    requires Fair(st) && InCycle(st, v)
  {
    Distance(st, v) + Cycle(st) * Wait(st.tasks[v])
  }

  ghost function Distance(st: State, v: nat): (k: nat)
    requires Fair(st) && InCycle(st, v)
    ensures k < Cycle(st)
  {
    if v > st.procIndex then v - st.procIndex - 1 else v + Cycle(st) - st.procIndex - 1
  }

  /** The turns on which a task is passed over before it runs. */
  ghost function Wait(t: Task): nat {
    if t.counter > t.priority then 0 else t.priority + 1 - t.counter
  }

  /** After so many main interrupts a process that has run runs again. */
  ghost function Period(st: State, v: nat): int
    requires v < |st.tasks|
  {
    Cycle(st) * (st.tasks[v].priority + 2)
  }

  /** The interrupt runs process v. */
  ghost predicate RunsOn(st: State, x: Interrupt, v: nat)
    requires IsState(st)
  {
    x.Main? && MainTicked(st, x.during).1.Some? && NextIndex(st) == v
  }

  ghost function Runs(st: State, run: seq<Interrupt>, v: nat): nat
    requires IsState(st)
    decreases |run|
  {
    if run == [] then 0
    else (if RunsOn(st, run[0], v) then 1 else 0) + Runs(Struck(st, run[0]), run[1..], v)
  }

  ghost function Mains(run: seq<Interrupt>): nat {
    if run == [] then 0 else (if run[0].Main? then 1 else 0) + Mains(run[1..])
  }

  lemma {:induction false} SameFirstVolatile(tasks: seq<Task>, tasks': seq<Task>, j: nat)
    requires j <= |tasks| == |tasks'| && forall i :: 0 <= i < |tasks| ==> tasks'[i].kind == tasks[i].kind
    ensures FirstVolatile(tasks', j) == FirstVolatile(tasks, j)
    decreases |tasks| - j
  {
    if j < |tasks| {
      SameFirstVolatile(tasks, tasks', j + 1);
    }
  }

  lemma TimerCounts(st: State, v: nat)
    requires IsState(st) && Fair(st) && InCycle(st, v)
    ensures var e := TimerTicked(st);
      && Fair(e) && Cycle(e) == Cycle(st) && InCycle(e, v) && |e.tasks| == |st.tasks| && e.tasks[v] == st.tasks[v]
      && Countdown(e, v) == Countdown(st, v) && Period(e, v) == Period(st, v)
  {
  }

  /** What a turn does to the next task in line, and to the others. */
  lemma TurnCounts(st: State, during: seq<Happening>, v: nat)
    requires IsState(st) && Fair(st) && InCycle(st, v) && |st.tasks| <= WORD_SPACE
    ensures var (e, event) := MainTicked(st, during);
      && Fair(e) && |e.tasks| == |st.tasks| && Cycle(e) == Cycle(st) && InCycle(e, v)
      && e.procIndex == (if NextIndex(st) == Cycle(st) then 0 else NextIndex(st))
      && e.tasks[v].priority == st.tasks[v].priority
      && if v == NextIndex(st)
         then && (event.Some? <==> st.tasks[v].counter > st.tasks[v].priority)
              && e.tasks[v].counter == if event.Some? then 0 else (st.tasks[v].counter + 1) % 0x100
         else e.tasks[v].counter == st.tasks[v].counter
  {
    hide TaskRun, FirstVolatile;
    TurnRestores(st, during);
    TurnMoves(st, during);
    SameFirstVolatile(st.tasks, MainTicked(st, during).0.tasks, 1);
    var i := NextIndex(st);
    if st.tasks[i].counter > st.tasks[i].priority {
      NothingElseRuns(Launched(Entered(st)), during);
    }
  }

  /** Each main interrupt brings the next run of a process one nearer, until it is there. */
  lemma CountsDown(st: State, during: seq<Happening>, v: nat)
    requires IsState(st) && Fair(st) && |st.tasks| <= WORD_SPACE && InCycle(st, v) && st.tasks[v].priority < 0xff
    ensures var e := MainTicked(st, during).0;
      && Fair(e) && |e.tasks| == |st.tasks| && Cycle(e) == Cycle(st) && InCycle(e, v)
      && e.tasks[v].priority == st.tasks[v].priority && Period(e, v) == Period(st, v)
      && (RunsOn(st, Main(during), v) <==> Countdown(st, v) == 0)
      && Countdown(e, v) == if Countdown(st, v) == 0 then Period(st, v) - 1 else Countdown(st, v) - 1
    ensures 0 <= Countdown(st, v) < Period(st, v)
  {
    hide MainTicked, AtRest, FirstVolatile;
    TurnCounts(st, during, v);
    var n, w := Cycle(st), Wait(st.tasks[v]);
    var p: int := st.tasks[v].priority;
    Products(n, w, p);
  }

  lemma Products(n: nat, w: nat, p: nat)
    requires w <= p + 1
    ensures n * (w - 1) == n * w - n && n * (p + 2) == n * (p + 1) + n
    ensures 0 <= n * w <= n * (p + 1)
    ensures w > 0 ==> n * w >= n
  {
    ProductGrows(n, w, p + 1);
    if w > 0 {
      ProductGrows(n, 1, w);
    }
  }

  /** A run of no more than one period runs the process once when its turn comes up, else not. */
  lemma {:induction false} RunsOnceInPeriod(st: State, run: seq<Interrupt>, v: nat)
    requires IsState(st) && Fair(st) && |st.tasks| <= WORD_SPACE && InCycle(st, v) && st.tasks[v].priority < 0xff
    requires Mains(run) <= Period(st, v)
    ensures Runs(st, run, v) == if Mains(run) > Countdown(st, v) then 1 else 0
    decreases |run|
  {
    hide MainTicked, TimerTicked, Fair, InCycle, Cycle, Countdown, Period;
    CountsDown(st, if run != [] && run[0].Main? then run[0].during else [], v);
    if run != [] {
      TimerCounts(st, v);
      RunsOnceInPeriod(Struck(st, run[0]), run[1..], v);
    }
  }

  /**
   * Any stretch of interrupts with one period's worth of main ones, the length of the cycle times
   * priority + 2, runs a process of the cycle exactly once, wherever its counter starts and
   * whatever happens meanwhile.
   */
  lemma ExactlyOncePerPeriod(st: State, run: seq<Interrupt>, v: nat)
    requires IsState(st) && Fair(st) && |st.tasks| <= WORD_SPACE && InCycle(st, v)
    requires st.tasks[v].priority < 0xff && Mains(run) == Cycle(st) * (st.tasks[v].priority + 2)
    ensures Runs(st, run, v) == 1
  {
    CountsDown(st, [], v);
    RunsOnceInPeriod(st, run, v);
  }

  /** A process of the last priority never runs: its counter, of eight bits, cannot pass it. */
  lemma {:induction false} LastPriorityNeverRuns(st: State, run: seq<Interrupt>, v: nat)
    requires IsState(st) && Fair(st) && |st.tasks| <= WORD_SPACE && InCycle(st, v) && st.tasks[v].priority == 0xff
    ensures Runs(st, run, v) == 0
    decreases |run|
  {
    hide MainTicked, Fair, InCycle, Cycle, Countdown, Period;
    if run != [] {
      TurnCounts(st, if run[0].Main? then run[0].during else [], v);
      TimerCounts(st, v);
      LastPriorityNeverRuns(Struck(st, run[0]), run[1..], v);
    }
  }

  /**
   * A process that is to run once takes the others' share: it stays in the list, and the turn
   * goes back to the start behind it, so neither the first process nor one behind it ever runs
   * again.
   */
  lemma {:induction false} VolatileStarvesOthers(st: State, run: seq<Interrupt>, k: nat, v: nat)
    requires IsState(st) && AtRest(st) && st.procIndex < k < |st.tasks| <= WORD_SPACE
    requires st.tasks[k].kind == VOLATILE && v < |st.tasks| && (v == 0 || v > k)
    ensures Runs(st, run, v) == 0
    decreases |run|
  {
    hide TaskRun, Turned;
    if run != [] {
      if run[0].Main? {
        TurnRestores(st, run[0].during);
        TurnMoves(st, run[0].during);
      }
      VolatileStarvesOthers(Struck(st, run[0]), run[1..], k, v);
    }
  }

  lemma TurnMoves(st: State, during: seq<Happening>)
    requires IsState(st) && !st.locked && st.tasks != []
    ensures MainTicked(st, during).0.procIndex
         == if st.tasks[NextIndex(st)].kind == VOLATILE then 0 else NextIndex(st)
  {
    hide TaskRun;
    var i := NextIndex(st);
    if st.tasks[i].counter > st.tasks[i].priority {
      NothingElseRuns(Launched(Entered(st)), during);
    }
  }

  // When every process has its share of all turns.

  function Ticks(m: nat): (run: seq<Interrupt>)
    ensures |run| == m && forall i :: 0 <= i < m ==> run[i] == Main([])
  {
    seq(m, _ => Main([]))
  }

  lemma {:induction false} TicksAreMains(m: nat)
    ensures Mains(Ticks(m)) == m
  {
    if m > 0 {
      assert Ticks(m)[1..] == Ticks(m - 1);
      TicksAreMains(m - 1);
    }
  }

  /** Wherever a run ends, the turn goes round the same cycle. */
  lemma {:induction false} StaysFair(st: State, run: seq<Interrupt>, v: nat)
    requires IsState(st) && Fair(st) && |st.tasks| <= WORD_SPACE && InCycle(st, v)
    ensures var e := After(st, run);
      && Fair(e) && |e.tasks| == |st.tasks| && Cycle(e) == Cycle(st) && InCycle(e, v)
      && e.tasks[v].priority == st.tasks[v].priority
  {
    hide MainTicked, TimerTicked, Fair, InCycle, Cycle;
    if run != [] {
      var n := |run| - 1;
      StaysFair(st, run[..n], v);
      TurnCounts(After(st, run[..n]), if run[n].Main? then run[n].during else [], v);
      TimerCounts(After(st, run[..n]), v);
    }
  }

  lemma {:induction false} TicksCountDown(st: State, m: nat, v: nat)
    requires IsState(st) && Fair(st) && |st.tasks| <= WORD_SPACE && InCycle(st, v) && st.tasks[v].priority < 0xff
    requires m <= Countdown(st, v)
    ensures var e := After(st, Ticks(m));
      && Fair(e) && InCycle(e, v) && Countdown(e, v) == Countdown(st, v) - m
  {
    hide MainTicked, Fair, InCycle, Cycle, Countdown;
    if m > 0 {
      assert Ticks(m)[..m - 1] == Ticks(m - 1);
      TicksCountDown(st, m - 1, v);
      StaysFair(st, Ticks(m - 1), v);
      CountsDown(After(st, Ticks(m - 1)), [], v);
    }
  }

  lemma {:induction false} MoreTicksMoreRuns(st: State, l: nat, m: nat, v: nat)
    requires IsState(st) && l <= m
    ensures Runs(st, Ticks(l), v) <= Runs(st, Ticks(m), v)
    decreases l
  {
    hide RunsOn, Struck;
    if l > 0 {
      assert Ticks(l)[1..] == Ticks(l - 1) && Ticks(m)[1..] == Ticks(m - 1);
      MoreTicksMoreRuns(Struck(st, Main([])), l - 1, m - 1, v);
    }
  }

  /** Once its turn has come a process runs at once, and again within a period. */
  lemma RunsTwice(st: State, m: nat, v: nat)
    requires IsState(st) && Fair(st) && |st.tasks| <= WORD_SPACE && InCycle(st, v) && st.tasks[v].priority < 0xff
    requires Countdown(st, v) == 0 && m > Period(st, v)
    ensures Runs(st, Ticks(m), v) >= 2
  {
    hide MainTicked, Fair, InCycle, Cycle, Countdown;
    CountsDown(st, [], v);
    var e, l := Struck(st, Main([])), Period(st, v);
    TicksAreMains(l);
    ExactlyOncePerPeriod(e, Ticks(l), v);
    MoreTicksMoreRuns(e, l, m - 1, v);
    assert Ticks(m)[1..] == Ticks(m - 1);
  }

  /** From now on the process runs exactly once in every n * (priority + 2) main interrupts. */
  ghost predicate HasShare(st: State, v: nat)
    requires IsState(st) && v < |st.tasks|
  {
    forall before: seq<Interrupt>, run: seq<Interrupt> ::
      Mains(run) == |st.tasks| * (st.tasks[v].priority + 2) ==> Runs(After(st, before), run, v) == 1
  }

  lemma ShareFails(st: State, v: nat, before: seq<Interrupt>, m: nat)
    requires IsState(st) && v < |st.tasks| && m == |st.tasks| * (st.tasks[v].priority + 2)
    requires Runs(After(st, before), Ticks(m), v) != 1
    ensures !HasShare(st, v)
  {
    TicksAreMains(m);
  }

  /** In a shorter cycle a process that the turn comes to has more than its share. */
  lemma MoreThanShare(st: State, m: nat, v: nat)
    requires IsState(st) && Fair(st) && |st.tasks| <= WORD_SPACE && InCycle(st, v) && Cycle(st) < |st.tasks|
    requires v < |st.tasks| && st.tasks[v].priority < 0xff && m == |st.tasks| * (st.tasks[v].priority + 2)
    ensures !HasShare(st, v)
  {
    hide MainTicked, InCycle, Cycle, Countdown, Fair, HasShare, Runs, After;
    CountsDown(st, [], v);
    var before := Ticks(Countdown(st, v));
    TicksCountDown(st, Countdown(st, v), v);
    StaysFair(st, before, v);
    LongerThan(Cycle(st), |st.tasks|, st.tasks[v].priority);
    RunsTwice(After(st, before), m, v);
    ShareFails(st, v, before, m);
  }

  /** And the others have none. */
  lemma NoShare(st: State, v: nat)
    requires IsState(st) && Fair(st) && st.procIndex == 0 && |st.tasks| <= WORD_SPACE && v < |st.tasks|
    requires st.tasks[v].priority < 0xff && Cycle(st) < |st.tasks|
    ensures !HasShare(st, v)
  {
    hide MainTicked, InCycle, Cycle, Countdown, Fair, HasShare, Runs;
    LongerThan(Cycle(st), |st.tasks|, st.tasks[v].priority);
    var m: nat := |st.tasks| * (st.tasks[v].priority + 2);
    if InCycle(st, v) {
      MoreThanShare(st, m, v);
    } else {
      OutOfCycle(st, v);
      VolatileStarvesOthers(st, Ticks(m), Cycle(st), v);
      ShareFails(st, v, [], m);
    }
  }

  lemma OutOfCycle(st: State, v: nat)
    requires Fair(st) && v < |st.tasks| && Cycle(st) < |st.tasks| && !InCycle(st, v)
    ensures (v == 0 || v > Cycle(st)) && st.tasks[Cycle(st)].kind == VOLATILE && st.procIndex < Cycle(st) && AtRest(st)
  {
  }

  lemma LongerThan(k: nat, n: nat, p: nat)
    requires k < n
    ensures 0 <= k * (p + 2) < n * (p + 2)
  {
    ProductGrows(p + 2, k + 1, n);
    assert k * (p + 2) == (p + 2) * k && n * (p + 2) == (p + 2) * n;
    assert (p + 2) * (k + 1) == (p + 2) * k + (p + 2);
  }

  /**
   * From the start of the list every process that can run at all, with a priority below 255, has
   * its share if and only if no process behind the first is one that is to run once.
   */
  lemma FairSharesIff(st: State)
    requires IsState(st) && AtRest(st) && st.procIndex == 0 && 0 < |st.tasks| <= WORD_SPACE
    requires exists v :: 0 <= v < |st.tasks| && st.tasks[v].priority < 0xff
    ensures (forall v: nat :: v < |st.tasks| && st.tasks[v].priority < 0xff ==> HasShare(st, v))
       <==> forall j :: 1 <= j < |st.tasks| ==> st.tasks[j].kind != VOLATILE
  {
    hide HasShare;
    if Cycle(st) == |st.tasks| {
      forall v: nat | v < |st.tasks| && st.tasks[v].priority < 0xff
        ensures HasShare(st, v)
      {
        FullShare(st, v);
      }
    } else {
      var v: nat :| v < |st.tasks| && st.tasks[v].priority < 0xff;
      NoShare(st, v);
    }
  }

  lemma FullShare(st: State, v: nat)
    requires IsState(st) && Fair(st) && |st.tasks| <= WORD_SPACE && Cycle(st) == |st.tasks| && v < |st.tasks|
    requires st.tasks[v].priority < 0xff
    ensures HasShare(st, v)
  {
    hide MainTicked;
    assert InCycle(st, v);
    forall before: seq<Interrupt>, run: seq<Interrupt> | Mains(run) == |st.tasks| * (st.tasks[v].priority + 2)
      ensures Runs(After(st, before), run, v) == 1
    {
      StaysFair(st, before, v);
      ExactlyOncePerPeriod(After(st, before), run, v);
    }
  }
}
