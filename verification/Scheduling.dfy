/**
 * The round-robin scheduler (scheduler.c): a main interrupt that gives each process of a list
 * its turn under a mutex, and a timer interrupt that watches the process that runs.
 *
 * While a process runs, interrupts are enabled: both may strike any number of times, and the
 * process may move the access window, the heap range and the super block.
 */
module Scheduling {
  import opened Words
  import opened FirstFit
  import opened Lists

  const VOLATILE: Byte := 2
  const PRIVILEGE_KERNEL: Byte := 'k' as int

  const EVENT_NOMESSAGE: Byte := 0
  const EVENT_INITIATE: Byte := 1

  const SLICE_SPACE := 0x1_0000
  const TIMER_SPACE := 0x1_0000_0000_0000_0000

  type Slice = x: int | 0 <= x < 0x1_0000

  /** What the scheduler keeps of a process. */
  datatype Task = Task(kind: Byte, privilege: Byte, priority: Byte, block: Word, heapBegin: Word, heapEnd: Word,
                       counter: Byte, flags: Byte, timeSlice: Slice)

  datatype Window = Window(begin: Word, end: Word)

  datatype Mode = Kernel | User | Neither

  const KERNEL_WINDOW := Window(0x0000_0000, 0xffff_ffff)
  const USER_WINDOW := Window(0x0000_4000, 0xffff_ffff)
  const WHOLE_HEAP := Window(0x0000_0000, 0xffff_ffff)

  datatype State = State(tasks: seq<Task>, procIndex: Word, active: bool, locked: bool,
                         access: Window, heap: Window, superBlock: Word, systemTimer: nat)

  /** What may happen while a process runs. */
  datatype Happening =
    | MainTick
    | TimerTick
    | SetAccess(access: Window)
    | SetHeap(heap: Window)
    | SetSuperBlock(block: Word)

  /** The access mode that a window stands for, told from its beginning alone. */
  function ModeOf(access: Window): Mode {
    if access.begin == KERNEL_WINDOW.begin then Kernel
    else if access.begin == USER_WINDOW.begin then User
    else Neither
  }

  /** The window that setting a mode sets; what is no mode sets that of the kernel. */
  function WindowOf(mode: Mode): Window {
    if mode == User then USER_WINDOW else KERNEL_WINDOW
  }

  function Initiated(flags: Byte): Byte {
    if flags % 2 == 0 then flags + 1 else flags
  }

  function ShutdownRequested(flags: Byte): (f: Byte) {
    if flags / 2 % 2 == 0 then
      assert flags / 2 <= 126;
      flags + 2
    else flags
  }

  ghost predicate IsState(st: State) {
    st.active ==> st.locked && st.procIndex < |st.tasks|
  }

  /** The index of the process whose turn is next. */
  function NextIndex(st: State): (i: Word)
    ensures st.tasks != [] ==> i < |st.tasks|
  {
    if st.procIndex + 1 >= |st.tasks| || st.procIndex + 1 == WORD_SPACE then 0 else st.procIndex + 1
  }

  function Ticked(t: Task): Task {
    var slice := (t.timeSlice + 1) % SLICE_SPACE;
    t.(timeSlice := slice, flags := if slice > 100 then ShutdownRequested(t.flags) else t.flags)
  }

  function TimerTicked(st: State): (st': State)
    requires IsState(st)
    ensures IsState(st') && |st'.tasks| == |st.tasks|
    ensures st'.active == st.active && st'.procIndex == st.procIndex && st'.locked == st.locked
  {
    var late := st.(systemTimer := (st.systemTimer + 1) % TIMER_SPACE);
    if !st.active then late
    else late.(tasks := st.tasks[st.procIndex := Ticked(st.tasks[st.procIndex])])
  }

  /** The mutex is taken and the environment of the next process is set up. */
  function Entered(st: State): (st': State)
    requires st.tasks != []
    ensures st'.procIndex < |st'.tasks| && st'.tasks == st.tasks && st'.locked
  {
    var i := NextIndex(st);
    var t := st.tasks[i];
    st.(procIndex := i, locked := true, access := WindowOf(if t.privilege == PRIVILEGE_KERNEL then Kernel else User),
        superBlock := t.block, heap := Window(t.heapBegin, t.heapEnd))
  }

  function Started(t: Task): Task {
    t.(counter := 0, flags := Initiated(t.flags), timeSlice := 0)
  }

  /** The environment is put back and the mutex released. */
  function Left(st: State, mode: Mode): State
    requires st.procIndex < |st.tasks|
  {
    st.(procIndex := if st.tasks[st.procIndex].kind == VOLATILE then 0 else st.procIndex,
        active := false, heap := WHOLE_HEAP, superBlock := 0, access := WindowOf(mode), locked := false)
  }

  function Launched(st: State): (st': State)
    requires st.procIndex < |st.tasks| && st.locked
    ensures IsState(st') && |st'.tasks| == |st.tasks| && st'.procIndex == st.procIndex && st'.locked
  {
    st.(tasks := st.tasks[st.procIndex := Started(st.tasks[st.procIndex])], active := true)
  }

  function Passed(st: State): (st': State)
    requires st.procIndex < |st.tasks|
  {
    var t := st.tasks[st.procIndex];
    st.(tasks := st.tasks[st.procIndex := t.(counter := (t.counter + 1) % 0x100)])
  }

  /** The turn of the current process: it runs when its counter has passed its priority. */
  function Turned(st: State, during: seq<Happening>): (r: (State, Option<Byte>))
    requires st.locked && st.procIndex < |st.tasks|
    ensures |r.0.tasks| == |st.tasks| && r.0.procIndex == st.procIndex
    decreases |during|, 1
  {
    var t := st.tasks[st.procIndex];
    if t.counter > t.priority then
      (TaskRun(Launched(st), during), Some(if t.flags % 2 == 0 then EVENT_INITIATE else EVENT_NOMESSAGE))
    else (Passed(st), None)
  }

  /** One main interrupt: the state after it, and the event sent to the process that it ran. */
  function MainTicked(st: State, during: seq<Happening>): (r: (State, Option<Byte>))
    requires IsState(st)
    ensures IsState(r.0) && |r.0.tasks| == |st.tasks|
    ensures st.locked ==> r == (st, None)
    decreases |during|, 2
  {
    if st.tasks == [] || st.locked then (st, None)
    else
      var (turned, event) := Turned(Entered(st), during);
      (Left(turned, ModeOf(st.access)), event)
  }

  /** The state after a process has run and all this has happened meanwhile. */
  function TaskRun(st: State, during: seq<Happening>): (st': State)
    requires IsState(st) && st.locked && st.procIndex < |st.tasks|
    ensures IsState(st') && st'.locked && |st'.tasks| == |st.tasks| && st'.procIndex == st.procIndex
    decreases |during|, 0
  {
    if during == [] then st
    else
      var n := |during| - 1;
      var before := TaskRun(st, during[..n]);
      match during[n]
      case MainTick => MainTicked(before, []).0
      case TimerTick => TimerTicked(before)
      case SetAccess(access) => before.(access := access)
      case SetHeap(heap) => before.(heap := heap)
      case SetSuperBlock(block) => before.(superBlock := block)
  }

  lemma Prefixes(during: seq<Happening>, i: nat)
    requires i < |during|
    ensures during[..i + 1][..i] == during[..i] && during[..i + 1][i] == during[i]
  {
  }

  class Process {
    const kind: Byte
    const privilege: Byte
    const priority: Byte
    const block: Word
    const heapBegin: Word
    const heapEnd: Word
    var counter: Byte
    var flags: Byte
    var timeSlice: Slice

    constructor (kind: Byte, privilege: Byte, priority: Byte, block: Word, heapBegin: Word, heapEnd: Word,
                 counter: Byte)
      ensures AsTask() == Task(kind, privilege, priority, block, heapBegin, heapEnd, counter, 0, 0)
    {
      this.kind, this.privilege, this.priority, this.counter := kind, privilege, priority, counter;
      this.block, this.heapBegin, this.heapEnd := block, heapBegin, heapEnd;
      flags, timeSlice := 0, 0;
    }

    function AsTask(): Task
      reads this
    {
      Task(kind, privilege, priority, block, heapBegin, heapEnd, counter, flags, timeSlice)
    }

    /**
     * Counts the time that the process has run, and asks it to shut down when it takes long.
     * The later deadlines, to kill it and to give up, never strike: the first one returns.
     */
    method Watch()
      modifies this
      ensures AsTask() == Ticked(old(AsTask()))
    {
      timeSlice := (timeSlice + 1) % SLICE_SPACE;
      if timeSlice > 100 {
        flags := ShutdownRequested(flags);
        return;
      }
      if timeSlice > 1000 {
        assert false;
      }
      if timeSlice > 3000 {
        assert false;
      }
    }

    /** The process gets its turn: the event that it is sent. */
    method Start() returns (event: Byte)
      modifies this
      ensures AsTask() == Started(old(AsTask()))
      ensures event == if old(flags) % 2 == 0 then EVENT_INITIATE else EVENT_NOMESSAGE
    {
      counter := 0;
      event := EVENT_NOMESSAGE;
      if flags % 2 == 0 {
        flags := Initiated(flags);
        event := EVENT_INITIATE;
      }
      timeSlice := 0;
    }

    /** The process is passed over: its counter, of eight bits, goes up. */
    method Pass()
      modifies this
      ensures AsTask() == old(AsTask()).(counter := (old(counter) + 1) % 0x100)
    {
      counter := (counter + 1) % 0x100;
    }
  }

  class Scheduler {
    const processNodeTable: Node?<Process>
    ghost const nodes: seq<Node<Process>>
    ghost const processes: seq<Process>

    var procIndex: Word
    var procInfo: Process?
    var flagProcActive: bool
    var lock: bool

    var access: Window
    var heap: Window
    var procSuperBlock: Word
    var systemTimer: nat

    constructor (table: Node?<Process>, ghost nodes: seq<Node<Process>>)
      requires IsList(table, nodes)
      requires forall i, j :: 0 <= i < j < |nodes| ==> nodes[i].data != nodes[j].data
      ensures Valid() && this.nodes == nodes && processes == Data(nodes)
      ensures procIndex == 0 && !flagProcActive && !lock && access == KERNEL_WINDOW && heap == WHOLE_HEAP
    {
      processNodeTable := table;
      this.nodes, processes := nodes, Data(nodes);
      procIndex, procInfo, flagProcActive, lock := 0, null, false, false;
      access, heap, procSuperBlock, systemTimer := KERNEL_WINDOW, WHOLE_HEAP, 0, 0;
    }

    ghost predicate Valid()
      reads this, nodes
    {
      && IsList(processNodeTable, nodes) && processes == Data(nodes)
      && (forall i, j :: 0 <= i < j < |processes| ==> processes[i] != processes[j])
      && (flagProcActive ==> lock && procIndex < |processes| && procInfo == processes[procIndex])
    }

    ghost function Tasks(): (tasks: seq<Task>)
      reads processes
      ensures |tasks| == |processes|
      ensures forall i :: 0 <= i < |tasks| ==> tasks[i] == processes[i].AsTask()
    {
      seq(|processes|, i requires 0 <= i < |processes| reads processes => processes[i].AsTask())
    }

    ghost function Value(): (st: State)
      requires Valid()
      reads this, nodes, processes
      ensures IsState(st) && st.tasks == Tasks()
    {
      State(Tasks(), procIndex, flagProcActive, lock, access, heap, procSuperBlock, systemTimer)
    }

    /** Only process i has changed. */
    twostate lemma OneChanged(i: nat)
      requires old(Valid()) && Valid() && i < |processes|
      requires forall j :: 0 <= j < |processes| && j != i ==> processes[j].AsTask() == old(processes[j].AsTask())
      ensures Tasks() == old(Tasks())[i := processes[i].AsTask()]
    {
    }

    method IsrSchedulerTimer()
      requires Valid()
      modifies this`systemTimer, processes
      ensures Valid() && Value() == TimerTicked(old(Value()))
    {
      hide IsList, Data, Ticked, Scheduler.Tasks, Process.AsTask;
      systemTimer := (systemTimer + 1) % TIMER_SPACE;
      if !flagProcActive {
        return;
      }
      procInfo.Watch();
      OneChanged(procIndex);
    }

    /** The process whose turn it is. */
    ghost predicate HasTurn(i: nat)
      reads this
    {
      lock && procIndex == i < |processes| && procInfo == processes[i]
    }

    method ProcessAt(i: nat) returns (process: Process)
      requires Valid() && i < |processes|
      ensures process == processes[i]
    {
      hide IsList;
      var node := ListGetNode(processNodeTable, i, nodes);
      process := node.data;
    }

    /** Takes the mutex and moves the turn on. */
    method MoveOn(numberOfTasks: nat)
      requires Valid() && !lock && 0 < numberOfTasks == |nodes|
      modifies this`lock, this`procIndex, this`procInfo
      ensures Valid() && HasTurn(procIndex)
      ensures Value() == old(Value()).(procIndex := NextIndex(old(Value())), locked := true)
    {
      hide IsList, Data, Scheduler.Tasks;
      lock := true;
      procIndex := Wrap(procIndex + 1);
      if procIndex >= numberOfTasks {
        procIndex := 0;
      }
      procInfo := ProcessAt(procIndex);
    }

    /** Sets up the environment of the current process. */
    method SetUp()
      requires Valid() && HasTurn(procIndex)
      modifies this`access, this`procSuperBlock, this`heap
      ensures Valid()
      ensures var t := Tasks()[procIndex];
        Value() == old(Value()).(access := WindowOf(if t.privilege == PRIVILEGE_KERNEL then Kernel else User),
                                 superBlock := t.block, heap := Window(t.heapBegin, t.heapEnd))
    {
      hide IsList, Data, Scheduler.Tasks, WindowOf;
      assert procInfo.AsTask() == Tasks()[procIndex];
      access := WindowOf(if procInfo.privilege == PRIVILEGE_KERNEL then Kernel else User);
      procSuperBlock := procInfo.block;
      heap := Window(procInfo.heapBegin, procInfo.heapEnd);
    }

    /** The mutex is taken and the environment of the next process set up. */
    method Enter(numberOfTasks: nat)
      requires Valid() && !lock && 0 < numberOfTasks == |nodes|
      modifies this
      ensures Valid() && !flagProcActive && HasTurn(procIndex)
      ensures Value() == Entered(old(Value()))
    {
      hide IsList, Data, Scheduler.Tasks, WindowOf, NextIndex, Scheduler.Valid, Process.AsTask;
      MoveOn(numberOfTasks);
      SetUp();
    }

    /** Starts the current process. */
    method Launch() returns (event: Byte)
      requires Valid() && HasTurn(procIndex) && !flagProcActive
      modifies this`flagProcActive, processes
      ensures Valid() && flagProcActive && HasTurn(procIndex)
      ensures Value() == Launched(old(Value()))
      ensures event == if old(procInfo.flags) % 2 == 0 then EVENT_INITIATE else EVENT_NOMESSAGE
    {
      hide IsList, Data, Scheduler.Tasks;
      event := procInfo.Start();
      flagProcActive := true;
      OneChanged(procIndex);
    }

    /** Passes the current process over. */
    method PassOver()
      requires Valid() && HasTurn(procIndex) && !flagProcActive
      modifies processes
      ensures Valid() && HasTurn(procIndex)
      ensures Value() == Passed(old(Value()))
    {
      hide IsList, Data, Scheduler.Tasks;
      procInfo.Pass();
      OneChanged(procIndex);
    }

    /** Runs the current process when it is its turn to run. */
    method TakeTurn(during: seq<Happening>) returns (event: Option<Byte>)
      requires Valid() && HasTurn(procIndex) && !flagProcActive
      modifies this, processes
      ensures Valid() && HasTurn(old(procIndex))
      ensures (Value(), event) == Turned(old(Value()), during)
      decreases |during|, 1
    {
      hide IsList, Data, Scheduler.Tasks, TaskRun, Launched, Passed, Scheduler.Valid;
      assert procInfo.AsTask() == Tasks()[procIndex];
      if procInfo.counter > procInfo.priority {
        var e := Launch();
        RunTask(during);
        event := Some(e);
      } else {
        PassOver();
        event := None;
      }
    }

    /** Puts the environment back and releases the mutex. */
    method Leave(currentMode: Mode)
      requires Valid() && HasTurn(procIndex)
      modifies this
      ensures Valid() && Value() == Left(old(Value()), currentMode)
    {
      hide IsList, Data, Scheduler.Tasks, WindowOf;
      assert procInfo.AsTask() == Tasks()[procIndex];
      flagProcActive := false;
      if procInfo.kind == VOLATILE {
        procIndex := 0;
      }
      heap := WHOLE_HEAP;
      procSuperBlock := 0;
      access := WindowOf(currentMode);
      lock := false;
    }

    /** Gives the next process its turn, unless some process has it already. */
    method IsrSchedulerMain(during: seq<Happening>) returns (event: Option<Byte>)
      requires Valid()
      modifies this, processes
      ensures Valid() && (Value(), event) == MainTicked(old(Value()), during)
      decreases |during|, 2
    {
      hide IsList, Data, Scheduler.Tasks, Turned, ModeOf, Entered, Left;
      var numberOfTasks := ListGetSize(processNodeTable, nodes);
      if numberOfTasks == 0 || lock {
        return None;
      }
      var currentMode := ModeOf(access);
      Enter(numberOfTasks);
      event := TakeTurn(during);
      Leave(currentMode);
    }

    /** The process that has been started runs, and all this happens meanwhile. */
    method RunTask(during: seq<Happening>)
      requires Valid() && flagProcActive
      modifies this, processes
      ensures Valid() && HasTurn(old(procIndex))
      ensures Value() == TaskRun(old(Value()), during)
      decreases |during|, 0
    {
      hide Scheduler.Tasks, MainTicked, TimerTicked, IsList, Data;
      assert during[..0] == [];
      for i := 0 to |during|
        invariant Valid() && flagProcActive && procInfo == old(procInfo)
        invariant Value() == TaskRun(old(Value()), during[..i])
      {
        Prefixes(during, i);
        match during[i] {
          case MainTick =>
            var event := IsrSchedulerMain([]);
          case TimerTick =>
            IsrSchedulerTimer();
          case SetAccess(window) =>
            access := window;
          case SetHeap(window) =>
            heap := window;
          case SetSuperBlock(block) =>
            procSuperBlock := block;
        }
      }
      assert during[..|during|] == during;
    }
  }
}
