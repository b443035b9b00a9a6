/**
 * What every program of the interpreter can rely on: bytes of the stack below where it works
 * stay, saved registers come back, and comparisons, jumps, calls and returns fit together.
 */
module EmulatorRuns {
  import opened Words
  import opened Emulator

  ghost predicate Services(services: seq<Service>) {
    forall i :: 0 <= i < |services| ==> |services[i].reg| == REGISTERS
  }

  /** The program is still running after the first i turns, with at least base bytes on the stack. */
  ghost predicate DeepAt(program: Program, m: Machine, services: seq<Service>, base: nat, i: int)
    requires IsMachine(m) && Services(services)
  {
    0 <= i <= |services| &&
    var r := Run(program, m, services[..i]);
    r.Running? && r.machine.stackPtr >= base
  }

  /** A segment of a run that never pops below base. */
  ghost predicate Deep(program: Program, m: Machine, services: seq<Service>, base: nat)
    requires IsMachine(m) && Services(services)
  {
    forall i :: 0 <= i <= |services| ==> DeepAt(program, m, services, base, i)
  }

  /** One turn writes the stack at most where the next byte goes. */
  lemma StepKeepsStack(program: Program, m: Machine, service: Service)
    requires IsMachine(m) && m.pc < MAX_PROGRAM_SIZE && |service.reg| == REGISTERS
    ensures var r := Step(program, m, service);
      r.Running? ==>
        && forall j :: 0 <= j < STACK_SIZE && j != m.stackPtr ==> r.machine.stack[j] == m.stack[j]
  {
    hide Alu, Target, CellOf;
  }

  /** A segment that never pops below its base leaves every byte below it as it was. */
  lemma {:induction false} LowerStackIsKept(program: Program, m: Machine, services: seq<Service>, base: nat)
    requires IsMachine(m) && Services(services) && Deep(program, m, services, base) && base <= STACK_SIZE
    ensures Run(program, m, services).Running?
    ensures Run(program, m, services).machine.stack[..base] == m.stack[..base]
  {
    hide Step;
    assert DeepAt(program, m, services, base, |services|) && services[..|services|] == services;
    if services != [] {
      var n := |services| - 1;
      var front := services[..n];
      forall i | 0 <= i <= n
        ensures DeepAt(program, m, front, base, i)
      {
        assert DeepAt(program, m, services, base, i) && front[..i] == services[..i];
      }
      LowerStackIsKept(program, m, front, base);
      assert DeepAt(program, m, front, base, n) && front[..n] == front;
      var before := Run(program, m, front).machine;
      if before.pc < MAX_PROGRAM_SIZE {
        StepKeepsStack(program, before, services[n]);
      }
    }
  }

  // Saving and restoring registers.

  /** A straight line of instructions, each of one byte and a register, at the given position. */
  ghost predicate IsLine(program: Program, pc: nat, op: Byte, rs: seq<Byte>) {
    pc + 2 * |rs| <= MAX_PROGRAM_SIZE &&
    forall i :: 0 <= i < |rs| ==>
      rs[i] < REGISTERS && program[pc + 2 * i] == op && program[pc + 2 * i + 1] == rs[i]
  }

  lemma PushTurn(program: Program, m: Machine, service: Service)
    requires IsMachine(m) && m.pc < MAX_PROGRAM_SIZE && |service.reg| == REGISTERS
    requires program[m.pc] == PUSH && program[m.pc + 1] < REGISTERS && m.stackPtr < STACK_SIZE
    ensures Step(program, m, service)
         == Running(m.(stackPtr := m.stackPtr + 1, stack := m.stack[m.stackPtr := m.reg[program[m.pc + 1]]],
                       pc := m.pc + 2))
  {
  }

  lemma PopTurn(program: Program, m: Machine, service: Service)
    requires IsMachine(m) && m.pc < MAX_PROGRAM_SIZE && |service.reg| == REGISTERS
    requires program[m.pc] == POP && program[m.pc + 1] < REGISTERS && m.stackPtr > 0
    ensures Step(program, m, service)
         == Running(m.(stackPtr := m.stackPtr - 1, reg := m.reg[program[m.pc + 1] := m.stack[m.stackPtr - 1]],
                       pc := m.pc + 2))
  {
  }

  /** A line of pushes puts the registers on the stack, one above the other, and changes no register. */
  lemma {:induction false} PushesSave(program: Program, m: Machine, rs: seq<Byte>, services: seq<Service>)
    requires IsMachine(m) && Services(services) && |services| == |rs|
    requires IsLine(program, m.pc, PUSH, rs) && m.stackPtr + |rs| <= STACK_SIZE
    ensures var r := Run(program, m, services);
      && r.Running? && r.machine.stackPtr == m.stackPtr + |rs| && r.machine.pc == m.pc + 2 * |rs|
      && r.machine.reg == m.reg
      && r.machine.stack[..m.stackPtr] == m.stack[..m.stackPtr]
      && forall i :: 0 <= i < |rs| ==> r.machine.stack[m.stackPtr + i] == m.reg[rs[i]]
  {
    hide Step;
    if rs != [] {
      var n := |rs| - 1;
      PushesSave(program, m, rs[..n], services[..n]);
      PushTurn(program, Run(program, m, services[..n]).machine, services[n]);
    }
  }

  ghost function Reversed(rs: seq<Byte>): (q: seq<Byte>)
    ensures |q| == |rs| && forall i :: 0 <= i < |rs| ==> q[i] == rs[|rs| - 1 - i]
  {
    seq(|rs|, i requires 0 <= i < |rs| => rs[|rs| - 1 - i])
  }

  /** The registers of a machine as pops of the first k saved ones leave them. */
  ghost predicate Restored(reg: seq<Byte>, before: seq<Byte>, saved: seq<Byte>, rs: seq<Byte>)
    requires |reg| == |before| == |saved| == REGISTERS
  {
    forall r: Byte :: r < REGISTERS ==> reg[r] == if r in rs then saved[r] else before[r]
  }

  /** A line of pops takes from the stack the registers that a line of pushes left there. */
  lemma {:induction false} PopsRestore(program: Program, m: Machine, saved: seq<Byte>, rs: seq<Byte>,
                                       services: seq<Service>)
    requires IsMachine(m) && Services(services) && |services| == |rs| && |saved| == REGISTERS
    requires IsLine(program, m.pc, POP, rs) && m.stackPtr >= |rs|
    requires forall i :: 0 <= i < |rs| ==> m.stack[m.stackPtr - 1 - i] == saved[rs[i]]
    ensures var r := Run(program, m, services);
      && r.Running? && r.machine.stackPtr == m.stackPtr - |rs| && r.machine.pc == m.pc + 2 * |rs|
      && r.machine.stack == m.stack
      && Restored(r.machine.reg, m.reg, saved, rs)
  {
    hide Step, Restored;
    NoneRestored(m.reg, saved);
    if rs != [] {
      var n := |rs| - 1;
      PopsRestore(program, m, saved, rs[..n], services[..n]);
      var before := Run(program, m, services[..n]).machine;
      PopTurn(program, before, services[n]);
      OneMoreRestored(before.reg, m.reg, saved, rs);
    }
  }

  lemma NoneRestored(reg: seq<Byte>, saved: seq<Byte>)
    requires |reg| == |saved| == REGISTERS
    ensures Restored(reg, reg, saved, [])
  {
  }

  lemma OneMoreRestored(reg: seq<Byte>, before: seq<Byte>, saved: seq<Byte>, rs: seq<Byte>)
    requires |reg| == |before| == |saved| == REGISTERS && rs != [] && rs[|rs| - 1] < REGISTERS
    requires Restored(reg, before, saved, rs[..|rs| - 1])
    ensures var r := rs[|rs| - 1]; Restored(reg[r := saved[r]], before, saved, rs)
  {
    var n := |rs| - 1;
    assert forall r :: r in rs <==> r in rs[..n] || r == rs[n];
  }

  /**
   * Registers that are pushed, whichever they are, come back with the pops in reverse order,
   * after any segment that ends where it began on the stack and never pops below: stack pointer
   * and lower stack are as before, and only the other registers are what the segment left.
   */
  lemma SavedRegistersComeBack(program: Program, m: Machine, rs: seq<Byte>,
                               pushing: seq<Service>, segment: seq<Service>, popping: seq<Service>)
    requires IsMachine(m) && Services(pushing) && Services(segment) && Services(popping)
    requires |pushing| == |popping| == |rs|
    requires IsLine(program, m.pc, PUSH, rs) && m.stackPtr + |rs| <= STACK_SIZE
    requires var pushed := Run(program, m, pushing);
      && pushed.Running? && Deep(program, pushed.machine, segment, m.stackPtr + |rs|)
      && var done := Run(program, pushed.machine, segment);
        && done.Running? && done.machine.stackPtr == m.stackPtr + |rs|
        && IsLine(program, done.machine.pc, POP, Reversed(rs))
    ensures var done := Run(program, Run(program, m, pushing).machine, segment);
      var popped := Run(program, done.machine, popping);
      && popped.Running? && popped.machine.stackPtr == m.stackPtr
      && popped.machine.stack[..m.stackPtr] == m.stack[..m.stackPtr]
      && Restored(popped.machine.reg, done.machine.reg, m.reg, rs)
  {
    hide Run, Step, Reversed, Deep, Restored, IsLine;
    LineRegisters(program, m.pc, PUSH, rs);
    PushesSave(program, m, rs, pushing);
    var pushed := Run(program, m, pushing).machine;
    LowerStackIsKept(program, pushed, segment, m.stackPtr + |rs|);
    var done := Run(program, pushed, segment).machine;
    SavedBytes(m, pushed, done, rs);
    PopsRestore(program, done, m.reg, Reversed(rs), popping);
    RestoredInAnyOrder(Run(program, done, popping).machine.reg, done.reg, m.reg, rs);
  }

  lemma LineRegisters(program: Program, pc: nat, op: Byte, rs: seq<Byte>)
    requires IsLine(program, pc, op, rs)
    ensures forall i :: 0 <= i < |rs| ==> rs[i] < REGISTERS
  {
  }

  lemma RestoredInAnyOrder(reg: seq<Byte>, before: seq<Byte>, saved: seq<Byte>, rs: seq<Byte>)
    requires |reg| == |before| == |saved| == REGISTERS && Restored(reg, before, saved, Reversed(rs))
    ensures Restored(reg, before, saved, rs)
  {
    forall r | r in rs
      ensures r in Reversed(rs)
    {
      var i :| 0 <= i < |rs| && rs[i] == r;
      assert Reversed(rs)[|rs| - 1 - i] == r;
    }
  }

  lemma SavedBytes(m: Machine, pushed: Machine, done: Machine, rs: seq<Byte>)
    requires IsMachine(m) && IsMachine(pushed) && IsMachine(done) && forall i :: 0 <= i < |rs| ==> rs[i] < REGISTERS
    requires m.stackPtr + |rs| == done.stackPtr <= STACK_SIZE
    requires pushed.stack[..m.stackPtr] == m.stack[..m.stackPtr]
    requires forall i :: 0 <= i < |rs| ==> pushed.stack[m.stackPtr + i] == m.reg[rs[i]]
    requires done.stack[..done.stackPtr] == pushed.stack[..done.stackPtr]
    ensures done.stack[..m.stackPtr] == m.stack[..m.stackPtr]
    ensures forall i :: 0 <= i < |rs| ==> done.stack[done.stackPtr - 1 - i] == m.reg[Reversed(rs)[i]]
  {
    assert forall j :: 0 <= j < done.stackPtr ==> done.stack[j] == done.stack[..done.stackPtr][j] == pushed.stack[j];
    assert forall j :: 0 <= j < m.stackPtr ==> pushed.stack[j] == pushed.stack[..m.stackPtr][j] == m.stack[j];
  }

  // Comparisons and jumps.

  /** Whether a jump is taken after x was compared with y. The jump "if less" is one if not greater. */
  predicate Taken(op: Byte, x: Byte, y: Byte)
    requires IsJump(op)
  {
    if op == JE then x == y
    else if op == JNE then x != y
    else if op == JG then x > y
    else if op == JL then x <= y
    else true
  }

  lemma CompareTurn(program: Program, m: Machine, service: Service)
    requires IsMachine(m) && m.pc < MAX_PROGRAM_SIZE && |service.reg| == REGISTERS
    requires program[m.pc] in {CMP, CMPR} && program[m.pc + 1] < REGISTERS
    requires program[m.pc] == CMPR ==> program[m.pc + 2] < REGISTERS
    ensures var x := m.reg[program[m.pc + 1]];
      var y := if program[m.pc] == CMP then program[m.pc + 2] else m.reg[program[m.pc + 2]];
      Step(program, m, service) == Running(m.(equal := x == y, greater := x > y, pc := m.pc + 3))
  {
  }

  lemma JumpTurn(program: Program, m: Machine, service: Service)
    requires IsMachine(m) && m.pc < MAX_PROGRAM_SIZE && |service.reg| == REGISTERS && IsJump(program[m.pc])
    ensures Step(program, m, service)
         == Running(m.(pc := if Jumps(program[m.pc], m.equal, m.greater) then Target(program, m.pc + 1) else m.pc + 5))
  {
    hide Target, Jumps;
  }

  /** A comparison and the jump behind it take the branch that the two values call for. */
  lemma JumpsAsCompared(program: Program, m: Machine, first: Service, second: Service)
    requires IsMachine(m) && |first.reg| == |second.reg| == REGISTERS && m.pc + 3 < MAX_PROGRAM_SIZE
    requires program[m.pc] in {CMP, CMPR} && IsJump(program[m.pc + 3])
    requires program[m.pc + 1] < REGISTERS && (program[m.pc] == CMPR ==> program[m.pc + 2] < REGISTERS)
    ensures var r := Run(program, m, [first, second]);
      var x := m.reg[program[m.pc + 1]];
      var y := if program[m.pc] == CMP then program[m.pc + 2] else m.reg[program[m.pc + 2]];
      && r.Running? && r.machine.reg == m.reg && r.machine.stack == m.stack && r.machine.memory == m.memory
      && r.machine.pc == if Taken(program[m.pc + 3], x, y) then Target(program, m.pc + 4) else m.pc + 8
  {
    hide Step, Run, Target;
    CompareTurn(program, m, first);
    JumpTurn(program, Step(program, m, first).machine, second);
    TwoTurns(program, m, first, second);
  }

  lemma TwoTurns(program: Program, m: Machine, first: Service, second: Service)
    requires IsMachine(m) && |first.reg| == |second.reg| == REGISTERS && m.pc < MAX_PROGRAM_SIZE
    requires var r := Step(program, m, first); r.Running? && r.machine.pc < MAX_PROGRAM_SIZE
    ensures Run(program, m, [first, second]) == Step(program, Step(program, m, first).machine, second)
  {
    hide Step;
    assert [first, second][..1] == [first] && [first][..0] == [];
    assert Run(program, m, []) == Running(m);
    assert Run(program, m, [first]) == Step(program, m, first);
  }

  // Calls and returns.

  ghost predicate NoCallAt(program: Program, m: Machine, services: seq<Service>, i: int)
    requires IsMachine(m) && Services(services)
  {
    0 <= i < |services| &&
    var r := Run(program, m, services[..i]);
    r.Running? && r.machine.pc < MAX_PROGRAM_SIZE && program[r.machine.pc] != CALL && program[r.machine.pc] != RET
  }

  /** A segment of a run in which nothing is called and nothing returns. */
  ghost predicate NoCalls(program: Program, m: Machine, services: seq<Service>)
    requires IsMachine(m) && Services(services)
  {
    forall i :: 0 <= i < |services| ==> NoCallAt(program, m, services, i)
  }

  lemma StepKeepsReturn(program: Program, m: Machine, service: Service)
    requires IsMachine(m) && m.pc < MAX_PROGRAM_SIZE && |service.reg| == REGISTERS
    requires program[m.pc] != CALL && program[m.pc] != RET
    ensures Step(program, m, service).Running? ==> Step(program, m, service).machine.pcRet == m.pcRet
  {
    hide Alu, Target, CellOf, Jumps;
  }

  lemma {:induction false} ReturnIsKept(program: Program, m: Machine, services: seq<Service>)
    requires IsMachine(m) && Services(services) && NoCalls(program, m, services)
    ensures Run(program, m, services).Running? ==> Run(program, m, services).machine.pcRet == m.pcRet
  {
    hide Step;
    if services != [] {
      var n := |services| - 1;
      var front := services[..n];
      forall i | 0 <= i < n
        ensures NoCallAt(program, m, front, i)
      {
        assert NoCallAt(program, m, services, i) && front[..i] == services[..i];
      }
      ReturnIsKept(program, m, front);
      assert NoCallAt(program, m, services, n);
      StepKeepsReturn(program, Run(program, m, front).machine, services[n]);
    }
  }

  lemma ReturnTurn(program: Program, m: Machine, service: Service)
    requires IsMachine(m) && m.pc < MAX_PROGRAM_SIZE && |service.reg| == REGISTERS && program[m.pc] == RET
    ensures Step(program, m, service) == Running(m.(pc := m.pcRet, pcRet := 0))
  {
  }

  lemma CallTurn(program: Program, m: Machine, service: Service)
    requires IsMachine(m) && m.pc < MAX_PROGRAM_SIZE && |service.reg| == REGISTERS && program[m.pc] == CALL
    ensures Step(program, m, service) == Running(m.(pcRet := m.pc + 5, pc := Target(program, m.pc + 1)))
  {
  }

  /** A return goes to the instruction behind the last call, if nothing was called in between. */
  lemma ReturnFollowsCall(program: Program, m: Machine, calling: Service, segment: seq<Service>, returning: Service)
    requires IsMachine(m) && |calling.reg| == |returning.reg| == REGISTERS && Services(segment)
    requires m.pc < MAX_PROGRAM_SIZE && program[m.pc] == CALL
    requires var called := Step(program, m, calling).machine;
      && NoCalls(program, called, segment)
      && var r := Run(program, called, segment);
        r.Running? && r.machine.pc < MAX_PROGRAM_SIZE && program[r.machine.pc] == RET
    ensures var end := Run(program, Step(program, m, calling).machine, segment).machine;
      Step(program, end, returning) == Running(end.(pc := m.pc + 5, pcRet := 0))
  {
    hide Step, Run, NoCalls;
    CallTurn(program, m, calling);
    var called := Step(program, m, calling).machine;
    ReturnIsKept(program, called, segment);
    ReturnTurn(program, Run(program, called, segment).machine, returning);
  }

  /**
   * There is one return address only: a return that follows another, as the outer one of two
   * nested calls does, starts the program over.
   */
  lemma SecondReturnRestarts(program: Program, m: Machine, first: Service, segment: seq<Service>, second: Service)
    requires IsMachine(m) && |first.reg| == |second.reg| == REGISTERS && Services(segment)
    requires m.pc < MAX_PROGRAM_SIZE && program[m.pc] == RET
    requires var returned := Step(program, m, first).machine;
      && NoCalls(program, returned, segment)
      && var r := Run(program, returned, segment);
        r.Running? && r.machine.pc < MAX_PROGRAM_SIZE && program[r.machine.pc] == RET
    ensures var end := Run(program, Step(program, m, first).machine, segment).machine;
      Step(program, end, second) == Running(end.(pc := 0))
  {
    hide Step, Run, NoCalls;
    ReturnTurn(program, m, first);
    var returned := Step(program, m, first).machine;
    ReturnIsKept(program, returned, segment);
    ReturnTurn(program, Run(program, returned, segment).machine, second);
  }
}
