/**
 * What a process meets when it gets its turn: the first event, the environment that it runs in,
 * and the request to shut down when it runs too long.
 */
module Processes {
  import opened Words
  import opened Arithmetic
  import opened FirstFit
  import opened Scheduling
  import opened Fairness

  // The flags, bit by bit.

  /** Bit 0: the process has had its first run. */
  predicate HasBegun(t: Task) {
    t.flags % 2 == 1
  }

  /** Bit 1: the process has been asked to shut down. */
  predicate IsAsked(t: Task) {
    t.flags / 2 % 2 == 1
  }

  /** Starting sets bit 0 and no other, and lets the counter and the time slice begin anew. */
  lemma StartSetsBit(t: Task)
    ensures var u := Started(t);
      && HasBegun(u) && u.flags / 2 == t.flags / 2 && u.counter == 0 && u.timeSlice == 0
      && u == t.(flags := u.flags, counter := 0, timeSlice := 0)
  {
  }

  /** A timer tick counts the time slice in sixteen bits, and past 100 it sets bit 1 and no other. */
  lemma TickSetsBit(t: Task)
    ensures var u := Ticked(t);
      && u.timeSlice == (if t.timeSlice == 0xffff then 0 else t.timeSlice + 1)
      && u == t.(flags := u.flags, timeSlice := u.timeSlice)
      && u.flags % 2 == t.flags % 2 && u.flags / 4 == t.flags / 4
      && (IsAsked(u) <==> IsAsked(t) || u.timeSlice > 100)
  {
    ShutdownSetsBit(t.flags);
  }

  lemma ShutdownSetsBit(flags: Byte)
    ensures var f := ShutdownRequested(flags);
      f / 2 % 2 == 1 && f % 2 == flags % 2 && f / 4 == flags / 4
  {
  }

  // The first run.

  /** What a turn does to bit 0 of a process, and the event that it sends. */
  lemma TurnBegins(st: State, during: seq<Happening>, v: nat)
    requires IsState(st) && AtRest(st) && v < |st.tasks|
    ensures var (e, event) := MainTicked(st, during);
      && AtRest(e) && |e.tasks| == |st.tasks|
      && (HasBegun(e.tasks[v]) <==> HasBegun(st.tasks[v]) || RunsOn(st, Main(during), v))
      && (RunsOn(st, Main(during), v) ==>
            event == Some(if HasBegun(st.tasks[v]) then EVENT_NOMESSAGE else EVENT_INITIATE))
  {
    hide TaskRun, Initiated, ShutdownRequested;
    TurnRestores(st, during);
    var i := NextIndex(st);
    StartSetsBit(st.tasks[i]);
    if st.tasks[i].counter > st.tasks[i].priority {
      NothingElseRuns(Launched(Entered(st)), during);
      ShutdownSetsBit(Started(st.tasks[i]).flags);
    }
  }

  /** The events that the process is sent over a run of interrupts, in order. */
  ghost function Events(st: State, run: seq<Interrupt>, v: nat): seq<Byte>
    requires IsState(st)
    decreases |run|
  {
    if run == [] then []
    else (if RunsOn(st, run[0], v) then [MainTicked(st, run[0].during).1.value] else [])
         + Events(Struck(st, run[0]), run[1..], v)
  }

  lemma StruckBegins(st: State, x: Interrupt, v: nat)
    requires IsState(st) && AtRest(st) && v < |st.tasks|
    ensures var e := Struck(st, x);
      && AtRest(e) && |e.tasks| == |st.tasks|
      && (HasBegun(e.tasks[v]) <==> HasBegun(st.tasks[v]) || RunsOn(st, x, v))
  {
    hide MainTicked;
    if x.Main? {
      TurnBegins(st, x.during, v);
    }
  }

  /**
   * Over any run of interrupts from rest a process that has not begun is sent the initiate event
   * on its first run and no message on every later one; one that has begun is never initiated.
   */
  lemma {:induction false} InitiatedOnce(st: State, run: seq<Interrupt>, v: nat)
    requires IsState(st) && AtRest(st) && v < |st.tasks|
    ensures var events := Events(st, run, v);
      && |events| == Runs(st, run, v)
      && forall k :: 0 <= k < |events| ==>
           events[k] == if k == 0 && !HasBegun(st.tasks[v]) then EVENT_INITIATE else EVENT_NOMESSAGE
    decreases |run|
  {
    hide MainTicked, HasBegun, AtRest, Struck;
    if run != [] {
      StruckBegins(st, run[0], v);
      InitiatedOnce(Struck(st, run[0]), run[1..], v);
      if RunsOn(st, run[0], v) {
        TurnBegins(st, run[0].during, v);
      }
    }
  }

  // The environment.

  /** Program memory begins at 0x4000, and only a process with the privilege of the kernel gets more. */
  predicate IsAccessOf(t: Task, access: Window) {
    access.begin == (if t.privilege == 'k' as int then 0 else 0x4000) && access.end == 0xffff_ffff
  }

  /** The next process of the list runs, in its own environment, with both interrupts able to strike. */
  lemma RunsInItsEnvironment(st: State, during: seq<Happening>)
    requires IsState(st) && !st.locked && 0 < |st.tasks| <= WORD_SPACE
    ensures var e := Launched(Entered(st));
      && e.procIndex == (if st.procIndex + 1 < |st.tasks| then st.procIndex + 1 else 0)
      && var t := st.tasks[e.procIndex];
      && e.active && e.locked && IsAccessOf(t, e.access)
      && e.heap.begin == t.heapBegin && e.heap.end == t.heapEnd && e.superBlock == t.block
      && e.systemTimer == st.systemTimer
      && e.tasks == st.tasks[e.procIndex := Started(t)]
      && (MainTicked(st, during).1.Some? <==> t.counter > t.priority)
      && (MainTicked(st, during).1.Some? ==>
            MainTicked(st, during).0 == Left(TaskRun(e, during), ModeOf(st.access)))
  {
    hide TaskRun, Started;
  }

  // The time slice.

  ghost function TimerTicks(during: seq<Happening>): nat {
    if during == [] then 0
    else TimerTicks(during[..|during| - 1]) + if during[|during| - 1].TimerTick? then 1 else 0
  }

  /**
   * While a process runs the clock and its time slice count the timer ticks, and it is asked to
   * shut down, if it was not before, exactly when it has run for more than 100 of them.
   */
  lemma {:induction false} AskedPastHundred(st: State, during: seq<Happening>)
    requires IsState(st) && st.active && st.tasks[st.procIndex].timeSlice == 0
    ensures var e, n := TaskRun(st, during), TimerTicks(during);
      && e.procIndex == st.procIndex && |e.tasks| == |st.tasks| && e.active
      && e.systemTimer % TIMER_SPACE == (st.systemTimer + n) % TIMER_SPACE
      && e.tasks[st.procIndex].timeSlice == n % 0x1_0000
      && (IsAsked(e.tasks[st.procIndex]) <==> IsAsked(st.tasks[st.procIndex]) || n > 100)
  {
    hide MainTicked, Ticked, IsAsked;
    if during != [] {
      var k := |during| - 1;
      AskedPastHundred(st, during[..k]);
      NothingElseRuns(st, during[..k]);
      var before, n := TaskRun(st, during[..k]), TimerTicks(during[..k]);
      TickSetsBit(before.tasks[st.procIndex]);
      RemainderOfSum(n, n % 0x1_0000, 1, 0x1_0000);
      SmallOrPast(n);
      ClockCounts(before.systemTimer, st.systemTimer, n);
    }
  }

  lemma SmallOrPast(n: nat)
    ensures (n + 1) % 0x1_0000 == if n % 0x1_0000 == 0xffff then 0 else n % 0x1_0000 + 1
    ensures (n + 1) % 0x1_0000 > 100 ==> n + 1 > 100
    ensures n <= 100 ==> (n + 1) % 0x1_0000 == n + 1
  {
  }

  lemma ClockCounts(now: nat, start: nat, n: nat)
    requires now % TIMER_SPACE == (start + n) % TIMER_SPACE
    ensures (now + 1) % TIMER_SPACE % TIMER_SPACE == (start + (n + 1)) % TIMER_SPACE
  {
    RemainderOfSum(start + n, now % TIMER_SPACE, 1, TIMER_SPACE);
    RemainderOfSum(now, now % TIMER_SPACE, 1, TIMER_SPACE);
  }
}
