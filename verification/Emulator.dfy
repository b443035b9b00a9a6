/**
 * The X4 byte-code interpreter (x4.c): eight byte registers, a stack of a hundred bytes, one
 * return address, two flags, and the memory behind the bus.
 *
 * What the C program leaves undefined, such as a register that does not exist, a push on a full
 * stack or a division by zero, ends a run here. The bytes behind the program buffer, which the
 * operand fetch may read, are part of the program.
 */
module Emulator {
  import opened Words
  import opened Arithmetic
  import opened Bits
  import opened FirstFit
  import opened BusCache
  import opened BusRuns

  const MAX_PROGRAM_SIZE := 256
  const FETCH_AHEAD := 5

  const REGISTERS := 8
  const STACK_SIZE := 100

  const USER_BEGIN := 0x4000

  const NOP: Byte := 0x90
  const MOVR: Byte := 0x88
  const MOVB: Byte := 0x89
  const MOVA: Byte := 0x83
  const MOVMW: Byte := 0x82
  const MOVMR: Byte := 0x81
  const INC: Byte := 0xFD
  const DEC: Byte := 0xFC
  const ADD: Byte := 0x00
  const SUB: Byte := 0x80
  const MUL: Byte := 0xF6
  const DIV: Byte := 0xF4
  const AND: Byte := 0x20
  const OR: Byte := 0x21
  const XOR: Byte := 0x22
  const NOT: Byte := 0x23
  const POP: Byte := 0x0F
  const PUSH: Byte := 0xF0
  const CMP: Byte := 0x38
  const CMPR: Byte := 0x39
  const JMP: Byte := 0xFE
  const JE: Byte := 0x74
  const JNE: Byte := 0xF3
  const JG: Byte := 0x75
  const JL: Byte := 0xF1
  const CALL: Byte := 0x9A
  const RET: Byte := 0xCB
  const INT3: Byte := 0xCC
  const INT: Byte := 0xCD

  const EXIT: Byte := 0x20

  type Program = p: seq<Byte> | |p| == MAX_PROGRAM_SIZE + FETCH_AHEAD
    witness seq(MAX_PROGRAM_SIZE + FETCH_AHEAD, _ => 0)

  datatype Machine = Machine(reg: seq<Byte>, stack: seq<Byte>, stackPtr: nat, pc: Word, pcRet: Word,
                             equal: bool, greater: bool, memory: seq<Byte>)

  datatype Outcome = Running(machine: Machine) | Exited(machine: Machine) | Undefined

  ghost predicate IsMachine(m: Machine) {
    |m.reg| == REGISTERS && |m.stack| == STACK_SIZE && m.stackPtr <= STACK_SIZE && |m.memory| > 0
  }

  predicate IsAlu(op: Byte) {
    op in {MOVR, MOVB, MOVA, INC, DEC, ADD, SUB, MUL, DIV, AND, OR, XOR, NOT}
  }

  predicate IsJump(op: Byte) {
    op in {JMP, JE, JNE, JG, JL}
  }

  function AluLength(op: Byte): Byte {
    if op == MOVA then 5 else if op == INC || op == DEC then 1 else if op == MUL || op == DIV then 3 else 2
  }

  /** Register a after an instruction that writes that register only. */
  function AluResult(op: Byte, reg: seq<Byte>, a: Byte, b: Byte, c: Byte): (r: Option<Byte>)
    requires |reg| == REGISTERS && a < REGISTERS
  {
    var x: int := reg[a];
    if op == MOVB || op == MOVA then Some(b)
    else if op == INC then Some((x + 1) % 0x100)
    else if op == DEC then Some((x + 0xff) % 0x100)
    else if op == NOT then Some(0xff - x)
    else if b >= REGISTERS then None
    else
      var y: int := reg[b];
      if op == MOVR then Some(reg[b])
      else if op == ADD then Some((x + y) % 0x100)
      else if op == SUB then Some((x - y) % 0x100)
      else if op == AND then Some(BitAnd(reg[a], reg[b]))
      else if op == OR then Some(BitOr(reg[a], reg[b]))
      else if op == XOR then Some(BitXor(reg[a], reg[b]))
      else if c >= REGISTERS then None
      else
        var z: int := reg[c];
        if op == MUL then Some(y * z % 0x100)
        else if z == 0 then None
        else Quotient(reg[b], reg[c])
  }

  function Quotient(x: Byte, y: Byte): Option<Byte>
    requires y != 0
  {
    QuotientBound(x, y);
    Some(x / y)
  }

  /** The registers after an arithmetic or move instruction. */
  function Alu(op: Byte, reg: seq<Byte>, a: Byte, b: Byte, c: Byte): (r: Option<seq<Byte>>)
    requires |reg| == REGISTERS
    ensures r.Some? ==> |r.value| == REGISTERS
  {
    if a >= REGISTERS then None
    else
      match AluResult(op, reg, a, b, c)
      case None => None
      case Some(x) =>
        if op != MOVA then Some(reg[a := x])
        else if a + 1 >= REGISTERS then None
        else Some(reg[a := x][a + 1 := c])
  }

  predicate Jumps(op: Byte, equal: bool, greater: bool) {
    op == JMP || (op == JE && equal) || (op == JNE && !equal) || (op == JG && greater) || (op == JL && !greater)
  }

  /** The cell of memory that an address operand names, in the range given to programs. */
  function CellOf(address: Word, memory: seq<Byte>): (p: nat)
    requires |memory| > 0
    ensures p < |memory|
  {
    Wrap(USER_BEGIN + address) % |memory|
  }

  /** The address operand that begins at position i of the program. */
  function Target(program: Program, i: nat): Word
    requires i + 4 <= |program|
  {
    FromBytes(program[i..i + 4])
  }

  /** What an interrupt service leaves in the registers, and its accesses to memory. */
  datatype Service = Service(reg: seq<Byte>, accesses: seq<Access>)

  predicate MovesData(op: Byte) {
    IsAlu(op) || op in {MOVMR, MOVMW, POP, PUSH}
  }

  /** One of the instructions that move or compute data. */
  function DataStep(program: Program, m: Machine): (r: Outcome)
    requires IsMachine(m) && m.pc < MAX_PROGRAM_SIZE && MovesData(program[m.pc])
    ensures r.Running? ==> IsMachine(r.machine)
  {
    var op, a := program[m.pc], program[m.pc + 1];
    if IsAlu(op) then
      match Alu(op, m.reg, a, program[m.pc + 2], program[m.pc + 3])
      case None => Undefined
      case Some(reg) => Running(m.(reg := reg, pc := m.pc + 1 + AluLength(op)))
    else if a >= REGISTERS then Undefined
    else if op == MOVMR then
      Running(m.(reg := m.reg[a := m.memory[CellOf(Target(program, m.pc + 2), m.memory)]], pc := m.pc + 6))
    else if op == MOVMW then
      Running(m.(memory := m.memory[CellOf(Target(program, m.pc + 2), m.memory) := m.reg[a]], pc := m.pc + 6))
    else if op == POP then
      if m.stackPtr == 0 then Undefined
      else Running(m.(stackPtr := m.stackPtr - 1, reg := m.reg[a := m.stack[m.stackPtr - 1]], pc := m.pc + 2))
    else
      if m.stackPtr == STACK_SIZE then Undefined
      else Running(m.(stackPtr := m.stackPtr + 1, stack := m.stack[m.stackPtr := m.reg[a]], pc := m.pc + 2))
  }

  /** One of the other instructions; what is no instruction does nothing, like NOP, CLI and STI. */
  function ControlStep(program: Program, m: Machine, service: Service): (r: Outcome)
    requires IsMachine(m) && m.pc < MAX_PROGRAM_SIZE && !MovesData(program[m.pc]) && |service.reg| == REGISTERS
    ensures r.Running? ==> IsMachine(r.machine)
  {
    var op, a, b := program[m.pc], program[m.pc + 1], program[m.pc + 2];
    if op == CMP || op == CMPR then
      if a >= REGISTERS || (op == CMPR && b >= REGISTERS) then Undefined
      else
        var x, y := m.reg[a], if op == CMP then b else m.reg[b];
        Running(m.(equal := x == y, greater := x > y, pc := m.pc + 3))
    else if IsJump(op) then
      Running(m.(pc := if Jumps(op, m.equal, m.greater) then Target(program, m.pc + 1) else m.pc + 5))
    else if op == CALL then Running(m.(pcRet := m.pc + 5, pc := Target(program, m.pc + 1)))
    else if op == RET then Running(m.(pc := m.pcRet, pcRet := 0))
    else if op == INT || op == INT3 then
      if a == EXIT then Exited(m.(pc := m.pc + 2))
      else Running(m.(pc := m.pc + 2, reg := service.reg, memory := MemoryAfter(m.memory, service.accesses)))
    else Running(m.(pc := m.pc + 1))
  }

  /**
   * One turn of the loop. An interrupt hands control to a service of the system, which may leave
   * any registers and any memory, but neither moves the program counter nor touches the stack.
   */
  function Step(program: Program, m: Machine, service: Service): (r: Outcome)
    requires IsMachine(m) && m.pc < MAX_PROGRAM_SIZE && |service.reg| == REGISTERS
    ensures r.Running? ==> IsMachine(r.machine)
  {
    if MovesData(program[m.pc]) then DataStep(program, m) else ControlStep(program, m, service)
  }

  /** As many turns as there are services, or up to the first turn that ends the program. */
  ghost function Run(program: Program, m: Machine, services: seq<Service>): (r: Outcome)
    requires IsMachine(m) && forall i :: 0 <= i < |services| ==> |services[i].reg| == REGISTERS
    ensures r.Running? ==> IsMachine(r.machine)
  {
    if services == [] then Running(m)
    else
      var n := |services| - 1;
      var before := Run(program, m, services[..n]);
      if before.Running? && before.machine.pc < MAX_PROGRAM_SIZE then Step(program, before.machine, services[n])
      else before
  }

  class X4 {
    const bus: CachedBus
    const programBuffer: Program
    const reg: array<Byte>
    const stack: array<Byte>
    var pc: Word
    var pcRet: Word
    var stackPtr: nat
    var flagCompare: bool
    var flagGreater: bool

    constructor (bus: CachedBus, program: Program)
      requires bus.Valid()
      ensures Valid() && this.bus == bus && programBuffer == program && fresh(reg) && fresh(stack)
      ensures pc == pcRet == 0 && stackPtr == 0 && !flagCompare && !flagGreater
      ensures (forall i :: 0 <= i < REGISTERS ==> reg[i] == 0) && (forall i :: 0 <= i < STACK_SIZE ==> stack[i] == 0)
    {
      this.bus, programBuffer := bus, program;
      reg := new Byte[REGISTERS](_ => 0);
      stack := new Byte[STACK_SIZE](_ => 0);
      pc, pcRet, stackPtr, flagCompare, flagGreater := 0, 0, 0, false, false;
    }

    ghost predicate Valid()
      reads this, bus, bus.ram, bus.cache, bus.dirtyBits
    {
      && bus.Valid() && reg.Length == REGISTERS && stack.Length == STACK_SIZE && stackPtr <= STACK_SIZE
      && reg != stack && reg != bus.ram && reg != bus.cache && stack != bus.ram && stack != bus.cache
    }

    ghost function Value(): (m: Machine)
      requires Valid()
      reads this, bus, bus.ram, bus.cache, bus.dirtyBits, reg, stack
      ensures IsMachine(m)
    {
      Machine(reg[..], stack[..], stackPtr, pc, pcRet, flagCompare, flagGreater, bus.Mem)
    }

    /** Carries out an arithmetic or move instruction on the registers. */
    method Compute(op: Byte, argA: Byte, argB: Byte, argC: Byte) returns (ok: bool)
      requires reg.Length == REGISTERS && IsAlu(op)
      modifies reg
      ensures ok == Alu(op, old(reg[..]), argA, argB, argC).Some?
      ensures reg[..] == if ok then Alu(op, old(reg[..]), argA, argB, argC).value else old(reg[..])
    {
      ghost var before := reg[..];
      if argA >= REGISTERS {
        return false;
      }
      var x: int := reg[argA];
      if op == MOVB {
        reg[argA] := argB;
      } else if op == MOVA {
        if argA + 1 >= REGISTERS {
          return false;
        }
        reg[argA] := argB;
        reg[argA + 1] := argC;
      } else if op == INC {
        reg[argA] := (x + 1) % 0x100;
      } else if op == DEC {
        reg[argA] := (x + 0xff) % 0x100;
      } else if op == NOT {
        reg[argA] := 0xff - x;
      } else {
        ok := ComputeTwo(op, argA, argB, argC);
        return;
      }
      assert reg[..] == Alu(op, before, argA, argB, argC).value;
      ok := true;
    }

    /** The same for the instructions that read a second register. */
    method ComputeTwo(op: Byte, argA: Byte, argB: Byte, argC: Byte) returns (ok: bool)
      requires reg.Length == REGISTERS && argA < REGISTERS
      requires op in {MOVR, ADD, SUB, MUL, DIV, AND, OR, XOR}
      modifies reg
      ensures ok == Alu(op, old(reg[..]), argA, argB, argC).Some?
      ensures reg[..] == if ok then Alu(op, old(reg[..]), argA, argB, argC).value else old(reg[..])
    {
      ghost var before := reg[..];
      if argB >= REGISTERS {
        return false;
      }
      var x: int, y: int := reg[argA], reg[argB];
      if op == MOVR {
        reg[argA] := reg[argB];
      } else if op == ADD {
        reg[argA] := (x + y) % 0x100;
      } else if op == SUB {
        reg[argA] := (x - y) % 0x100;
      } else if op == AND {
        reg[argA] := BitAnd(reg[argA], reg[argB]);
      } else if op == OR {
        reg[argA] := BitOr(reg[argA], reg[argB]);
      } else if op == XOR {
        reg[argA] := BitXor(reg[argA], reg[argB]);
      } else {
        if argC >= REGISTERS {
          return false;
        }
        var z: int := reg[argC];
        if op == MUL {
          reg[argA] := y * z % 0x100;
        } else {
          if z == 0 {
            return false;
          }
          var quotient := Quotient(reg[argB], reg[argC]);
          reg[argA] := quotient.value;
        }
      }
      assert reg[..] == before[argA := reg[argA]];
      ok := true;
    }

    /** Moves a byte between a register and memory. */
    method Transfer(op: Byte, argA: Byte, address: Word) returns (ok: bool)
      requires Valid() && (op == MOVMR || op == MOVMW)
      modifies reg, bus, bus.ram, bus.cache, bus.dirtyBits
      ensures Valid() && ok == (argA < REGISTERS)
      ensures ok && op == MOVMR ==>
        && bus.Mem == old(bus.Mem)
        && reg[..] == old(reg[..])[argA := old(bus.Mem)[CellOf(address, old(bus.Mem))]]
      ensures ok && op == MOVMW ==>
        && reg[..] == old(reg[..])
        && bus.Mem == old(bus.Mem)[CellOf(address, old(bus.Mem)) := old(reg[argA])]
    {
      if argA >= REGISTERS {
        return false;
      }
      if op == MOVMR {
        var b := bus.ReadMemory(Wrap(USER_BEGIN + address));
        reg[argA] := b;
      } else {
        bus.WriteMemory(Wrap(USER_BEGIN + address), reg[argA]);
      }
      ok := true;
    }

    /** Pushes a register, or pops into one. */
    method MoveStack(op: Byte, argA: Byte) returns (ok: bool)
      requires Valid() && (op == PUSH || op == POP)
      modifies this`stackPtr, reg, stack
      ensures Valid()
      ensures ok == (argA < REGISTERS && if op == PUSH then old(stackPtr) < STACK_SIZE else old(stackPtr) > 0)
      ensures ok && op == PUSH ==>
        && stackPtr == old(stackPtr) + 1 && reg[..] == old(reg[..])
        && stack[..] == old(stack[..])[old(stackPtr) := old(reg[argA])]
      ensures ok && op == POP ==>
        && stackPtr == old(stackPtr) - 1 && stack[..] == old(stack[..])
        && reg[..] == old(reg[..])[argA := old(stack[stackPtr - 1])]
    {
      if argA >= REGISTERS || (if op == PUSH then stackPtr == STACK_SIZE else stackPtr == 0) {
        return false;
      }
      if op == PUSH {
        stack[stackPtr] := reg[argA];
        stackPtr := stackPtr + 1;
      } else {
        stackPtr := stackPtr - 1;
        reg[argA] := stack[stackPtr];
      }
      ok := true;
    }

    /** Compares a register with a byte or with a register. */
    method Compare(op: Byte, argA: Byte, argB: Byte) returns (ok: bool)
      requires Valid() && (op == CMP || op == CMPR)
      modifies this`flagCompare, this`flagGreater
      ensures ok == (argA < REGISTERS && (op == CMPR ==> argB < REGISTERS))
      ensures ok ==>
        var y := if op == CMP then argB else reg[argB];
        flagCompare == (reg[argA] == y) && flagGreater == (reg[argA] > y)
    {
      if argA >= REGISTERS || (op == CMPR && argB >= REGISTERS) {
        return false;
      }
      var y := if op == CMP then argB else reg[argB];
      if reg[argA] == y {
        flagCompare, flagGreater := true, false;
      } else {
        flagCompare := false;
        flagGreater := reg[argA] > y;
      }
      ok := true;
    }

    /** The instructions that load the program counter. */
    method Branch(op: Byte, address: Word)
      requires IsJump(op) || op == CALL || op == RET
      requires pc <= MAX_PROGRAM_SIZE
      modifies this`pc, this`pcRet
      ensures pc == if op == RET then old(pcRet)
                    else if op == CALL || Jumps(op, flagCompare, flagGreater) then address else old(pc) + 4
      ensures pcRet == if op == CALL then old(pc) + 4 else if op == RET then 0 else old(pcRet)
    {
      if op == CALL {
        pcRet := pc + 4;
        pc := address;
      } else if op == RET {
        pc := pcRet;
        pcRet := 0;
      } else if op == JMP || (op == JE && flagCompare) || (op == JNE && !flagCompare)
                || (op == JG && flagGreater) || (op == JL && !flagGreater) {
        pc := address;
      } else {
        pc := pc + 4;
      }
    }

    /** The address operand that begins at position i. */
    method Operand(i: nat) returns (address: Word)
      requires i + 4 <= |programBuffer|
      ensures address == Target(programBuffer, i)
    {
      address := FromBytes([programBuffer[i], programBuffer[i + 1], programBuffer[i + 2], programBuffer[i + 3]]);
      assert programBuffer[i..i + 4]
          == [programBuffer[i], programBuffer[i + 1], programBuffer[i + 2], programBuffer[i + 3]];
    }

    /** Lets an interrupt service have its effect. */
    method Interrupt(service: Service)
      requires Valid() && |service.reg| == REGISTERS
      modifies reg, bus, bus.ram, bus.cache, bus.dirtyBits
      ensures Valid() && reg[..] == service.reg && bus.Mem == MemoryAfter(old(bus.Mem), service.accesses)
    {
      forall i | 0 <= i < REGISTERS {
        reg[i] := service.reg[i];
      }
      var answers := Serve(bus, service.accesses);
    }

    /** This machine is where a step leads that does not end the program. */
    ghost predicate Reaches(r: Outcome, ok: bool)
      requires Valid()
      reads this, bus, bus.ram, bus.cache, bus.dirtyBits, reg, stack
    {
      match r
      case Running(m) => ok && Value() == m
      case Exited(m) => false
      case Undefined => !ok
    }

    method ExecuteAlu(opCode: Byte, argA: Byte) returns (ok: bool)
      requires Valid() && 0 < pc <= MAX_PROGRAM_SIZE && IsAlu(opCode)
      requires opCode == programBuffer[pc - 1] && argA == programBuffer[pc]
      modifies this`pc, reg
      ensures Valid()
      ensures Reaches(DataStep(programBuffer, old(Value()).(pc := old(pc) - 1)), ok)
    {
      hide CachedBus.Valid, Alu, AluLength, IsAlu;
      ok := Compute(opCode, argA, programBuffer[pc + 1], programBuffer[pc + 2]);
      pc := pc + AluLength(opCode);
    }

    /** Carries out an instruction that moves or computes data. */
    method ExecuteData(opCode: Byte, argA: Byte) returns (ok: bool)
      requires Valid() && 0 < pc <= MAX_PROGRAM_SIZE && MovesData(opCode)
      requires opCode == programBuffer[pc - 1] && argA == programBuffer[pc]
      modifies this, reg, stack, bus, bus.ram, bus.cache, bus.dirtyBits
      ensures Valid()
      ensures Reaches(DataStep(programBuffer, old(Value()).(pc := old(pc) - 1)), ok)
    {
      hide CachedBus.Valid, Alu, IsAlu, Target, CellOf;
      if IsAlu(opCode) {
        ok := ExecuteAlu(opCode, argA);
      } else if opCode == MOVMR || opCode == MOVMW {
        var address := Operand(pc + 1);
        ok := Transfer(opCode, argA, address);
        pc := pc + 5;
      } else {
        ok := MoveStack(opCode, argA);
        pc := pc + 1;
      }
    }

    /** Carries out any other instruction: whether it is defined, and whether it is the exit. */
    method ExecuteControl(opCode: Byte, argA: Byte, service: Service) returns (ok: bool, exit: bool)
      requires Valid() && 0 < pc <= MAX_PROGRAM_SIZE && !MovesData(opCode) && |service.reg| == REGISTERS
      requires opCode == programBuffer[pc - 1] && argA == programBuffer[pc]
      modifies this, reg, bus, bus.ram, bus.cache, bus.dirtyBits
      ensures Valid()
      ensures match ControlStep(programBuffer, old(Value()).(pc := old(pc) - 1), service)
              case Running(m) => ok && !exit && Value() == m
              case Exited(m) => ok && exit && Value() == m
              case Undefined => !ok
    {
      hide CachedBus.Valid, Target, Jumps, MemoryAfter;
      ok, exit := true, false;
      if opCode == CMP || opCode == CMPR {
        ok := Compare(opCode, argA, programBuffer[pc + 1]);
        pc := pc + 2;
      } else if IsJump(opCode) || opCode == CALL || opCode == RET {
        var address := Operand(pc);
        Branch(opCode, address);
      } else if opCode == INT || opCode == INT3 {
        pc := pc + 1;
        if argA == EXIT {
          exit := true;
        } else {
          Interrupt(service);
        }
      }
    }

    /** One turn of the loop. */
    method Execute(service: Service) returns (ok: bool, exit: bool)
      requires Valid() && pc < MAX_PROGRAM_SIZE && |service.reg| == REGISTERS
      modifies this, reg, stack, bus, bus.ram, bus.cache, bus.dirtyBits
      ensures Valid()
      ensures match Step(programBuffer, old(Value()), service)
              case Running(m) => ok && !exit && Value() == m
              case Exited(m) => ok && exit && Value() == m
              case Undefined => !ok
    {
      hide CachedBus.Valid, DataStep, ControlStep, MovesData;
      var opCode, argA := programBuffer[pc], programBuffer[pc + 1];
      pc := pc + 1;
      exit := false;
      if MovesData(opCode) {
        ok := ExecuteData(opCode, argA);
      } else {
        ok, exit := ExecuteControl(opCode, argA, service);
      }
    }

    /**
     * Starts the program anew, and emulates it for at most the given number of turns. Registers
     * and stack keep what an earlier program left in them.
     */
    method EmulateX4(services: seq<Service>) returns (ok: bool, exit: bool)
      requires Valid() && forall i :: 0 <= i < |services| ==> |services[i].reg| == REGISTERS
      modifies this, reg, stack, bus, bus.ram, bus.cache, bus.dirtyBits
      ensures Valid()
      ensures var start := old(Value()).(pc := 0, pcRet := 0, stackPtr := 0, equal := false, greater := false);
              match Run(programBuffer, start, services)
              case Running(m) => ok && !exit && Value() == m
              case Exited(m) => ok && exit && Value() == m
              case Undefined => !ok
    {
      hide CachedBus.Valid, Step;
      pc, pcRet, stackPtr, flagCompare, flagGreater := 0, 0, 0, false, false;
      ghost var start := Value();
      assert services[..0] == [];
      ok, exit := true, false;
      for i := 0 to |services|
        invariant Valid() && ok && !exit
        invariant Run(programBuffer, start, services[..i]) == Running(Value())
      {
        assert services[..i + 1][..i] == services[..i];
        if pc >= MAX_PROGRAM_SIZE {
          Idles(programBuffer, start, services, i);
          return;
        }
        ok, exit := Execute(services[i]);
        if !ok || exit {
          Idles(programBuffer, start, services, i + 1);
          return;
        }
      }
      assert services[..|services|] == services;
    }
  }

  /** Once a program has ended, further turns change nothing. */
  lemma {:induction false} Idles(program: Program, m: Machine, services: seq<Service>, i: nat)
    requires IsMachine(m) && forall i :: 0 <= i < |services| ==> |services[i].reg| == REGISTERS
    requires i <= |services|
    requires var r := Run(program, m, services[..i]); !r.Running? || r.machine.pc >= MAX_PROGRAM_SIZE
    ensures Run(program, m, services) == Run(program, m, services[..i])
  {
    hide Step;
    var n := |services| - 1;
    if i == |services| {
      assert services[..i] == services;
    } else {
      assert services[..n][..i] == services[..i];
      Idles(program, m, services[..n], i);
    }
  }
}
