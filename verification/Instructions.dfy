/**
 * What each instruction of the interpreter computes, told by arithmetic on the values of the
 * registers, and where it leaves the program counter.
 */
module Instructions {
  import opened Words
  import opened Arithmetic
  import opened Bits
  import opened BusRuns
  import opened Emulator

  // Lengths.

  /** The bytes of operands behind each operation code. */
  function Operands(op: Byte): nat {
    if op in {INC, DEC, POP, PUSH, INT, INT3} then 1
    else if op in {MOVR, MOVB, ADD, SUB, AND, OR, XOR, NOT, CMP, CMPR} then 2
    else if op in {MUL, DIV} then 3
    else if op in {JMP, JE, JNE, JG, JL, CALL} then 4
    else if op in {MOVA, MOVMR, MOVMW} then 5
    else 0
  }

  /** The instruction may go elsewhere than to the one behind it. */
  predicate GoesElsewhere(op: Byte) {
    op in {JMP, JE, JNE, JG, JL, CALL, RET}
  }

  /** Any other instruction goes on behind its operands; only calls and returns touch the return address. */
  lemma GoesOn(program: Program, m: Machine, service: Service)
    requires IsMachine(m) && m.pc < MAX_PROGRAM_SIZE && |service.reg| == REGISTERS
    ensures var op, r := program[m.pc], Step(program, m, service);
      && (r.Running? && !GoesElsewhere(op) ==> r.machine.pc == m.pc + 1 + Operands(op))
      && (r.Exited? <==> op in {INT, INT3} && program[m.pc + 1] == 0x20)
      && (r.Running? && op !in {CALL, RET} ==> r.machine.pcRet == m.pcRet)
  {
    hide Alu, CellOf, Target, Jumps;
  }

  /** The conditional jumps go on behind their address when they do not jump. */
  lemma JumpsOrGoesOn(program: Program, m: Machine, service: Service)
    requires IsMachine(m) && m.pc < MAX_PROGRAM_SIZE && |service.reg| == REGISTERS
    requires program[m.pc] in {JMP, JE, JNE, JG, JL}
    ensures var op, r := program[m.pc], Step(program, m, service);
      && r.Running? && r.machine == m.(pc := r.machine.pc)
      && var taken := match op
           case 0xFE => true          // JMP
           case 0x74 => m.equal       // JE
           case 0xF3 => !m.equal      // JNE
           case 0x75 => m.greater     // JG
           case _ => !m.greater;      // JL
         r.machine.pc == if taken then WordAtPc(program, m.pc + 1) else m.pc + 5
  {
  }

  /** The address operand, least significant byte first. */
  function WordAtPc(program: Program, i: nat): int
    requires i + 4 <= |program|
  {
    program[i] as int + 0x100 * program[i + 1] as int + 0x1_0000 * program[i + 2] as int
      + 0x100_0000 * program[i + 3] as int
  }

  /** The arithmetic and move instructions take their operands in order and change registers only. */
  lemma AluTurn(program: Program, m: Machine, service: Service)
    requires IsMachine(m) && m.pc < MAX_PROGRAM_SIZE && |service.reg| == REGISTERS && IsAlu(program[m.pc])
    ensures var op, a, b, c := program[m.pc], program[m.pc + 1], program[m.pc + 2], program[m.pc + 3];
      var r := Alu(op, m.reg, a, b, c);
      Step(program, m, service) ==
        if r.Some? then Running(m.(reg := r.value, pc := m.pc + 1 + Operands(op))) else Undefined
  {
    hide Alu;
  }

  /** A call remembers where to go on, and a return goes there and forgets it. */
  lemma CallAndReturn(program: Program, m: Machine, service: Service)
    requires IsMachine(m) && m.pc < MAX_PROGRAM_SIZE && |service.reg| == REGISTERS
    ensures program[m.pc] == CALL ==>
              Step(program, m, service) == Running(m.(pcRet := m.pc + 5, pc := WordAtPc(program, m.pc + 1)))
    ensures program[m.pc] == RET ==> Step(program, m, service) == Running(m.(pc := m.pcRet, pcRet := 0))
  {
  }

  /** An interrupt other than the exit takes over what its service leaves. */
  lemma InterruptTakesOver(program: Program, m: Machine, service: Service)
    requires IsMachine(m) && m.pc < MAX_PROGRAM_SIZE && |service.reg| == REGISTERS
    requires program[m.pc] in {INT, INT3} && program[m.pc + 1] != 0x20
    ensures var r := Step(program, m, service);
      && r.Running? && r.machine == m.(pc := m.pc + 2, reg := service.reg, memory := r.machine.memory)
      && r.machine.memory == MemoryAfter(m.memory, service.accesses)
  {
  }

  // Registers.

  predicate IsRegister(r: Byte) {
    r < 8
  }

  /** An instruction is defined exactly on registers that exist, and a division by other than zero. */
  lemma AluIsDefinedIff(op: Byte, reg: seq<Byte>, a: Byte, b: Byte, c: Byte)
    requires |reg| == 8 && IsAlu(op)
    ensures Alu(op, reg, a, b, c).Some? <==>
              && IsRegister(a) && (op == MOVA ==> a != 7)
              && (op in {MOVR, ADD, SUB, AND, OR, XOR, MUL, DIV} ==> IsRegister(b))
              && (op in {MUL, DIV} ==> IsRegister(c))
              && (op == DIV ==> reg[c] != 0)
  {
  }

  /** It changes the one register, or two with an address, and no other. */
  lemma OtherRegistersStay(op: Byte, reg: seq<Byte>, a: Byte, b: Byte, c: Byte)
    requires |reg| == 8 && IsAlu(op) && Alu(op, reg, a, b, c).Some?
    ensures var after := Alu(op, reg, a, b, c).value;
      |after| == 8 && forall k :: 0 <= k < 8 && k != a && !(op == MOVA && k == a + 1) ==> after[k] == reg[k]
  {
    hide AluResult;
  }

  /** The registers after an instruction, where it is defined. */
  function After(op: Byte, reg: seq<Byte>, a: Byte, b: Byte, c: Byte): (after: seq<Byte>)
    requires |reg| == 8 && Alu(op, reg, a, b, c).Some?
    ensures |after| == 8
  {
    Alu(op, reg, a, b, c).value
  }

  // Moves.

  lemma MovesCopy(reg: seq<Byte>, a: Byte, b: Byte, c: Byte)
    requires |reg| == 8 && IsRegister(a)
    ensures IsRegister(b) ==> After(MOVR, reg, a, b, c)[a] == reg[b]
    ensures After(MOVB, reg, a, b, c)[a] == b
    ensures a != 7 ==> After(MOVA, reg, a, b, c)[a] == b && After(MOVA, reg, a, b, c)[a + 1] == c
  {
  }

  // Counting.

  /** An increment goes to the next byte, and from the last to the first; a decrement goes back. */
  lemma IncrementsCount(reg: seq<Byte>, a: Byte, b: Byte, c: Byte)
    requires |reg| == 8 && IsRegister(a)
    ensures After(INC, reg, a, b, c)[a] == if reg[a] == 255 then 0 else reg[a] + 1
    ensures After(DEC, reg, a, b, c)[a] == if reg[a] == 0 then 255 else reg[a] - 1
    ensures After(DEC, After(INC, reg, a, b, c), a, b, c) == reg
    ensures After(INC, After(DEC, reg, a, b, c), a, b, c) == reg
  {
  }

  // Sums and differences.

  /** Two numbers that eight bits cannot tell apart. */
  predicate Same(x: int, y: int) {
    (x - y) % 0x100 == 0
  }

  lemma SumsAndDifferences(reg: seq<Byte>, a: Byte, b: Byte, c: Byte)
    requires |reg| == 8 && IsRegister(a) && IsRegister(b)
    ensures Same(After(ADD, reg, a, b, c)[a], reg[a] as int + reg[b] as int)
    ensures Same(After(SUB, reg, a, b, c)[a] as int + reg[b] as int, reg[a])
    ensures After(SUB, reg, a, a, c)[a] == 0
    ensures reg[b] == 0 ==> After(ADD, reg, a, b, c) == reg && After(SUB, reg, a, b, c) == reg
  {
  }

  /** A subtraction takes back an addition, and the other way round. */
  lemma SubtractionUndoesAddition(reg: seq<Byte>, a: Byte, b: Byte, c: Byte)
    requires |reg| == 8 && IsRegister(a) && IsRegister(b) && a != b
    ensures After(SUB, After(ADD, reg, a, b, c), a, b, c) == reg
    ensures After(ADD, After(SUB, reg, a, b, c), a, b, c) == reg
  {
    ThereAndBack(reg[a], reg[b]);
    assert After(SUB, After(ADD, reg, a, b, c), a, b, c) == reg[a := reg[a]];
    assert After(ADD, After(SUB, reg, a, b, c), a, b, c) == reg[a := reg[a]];
  }

  lemma ThereAndBack(x: int, y: int)
    requires 0 <= x < 0x100
    ensures ((x + y) % 0x100 - y) % 0x100 == x && ((x - y) % 0x100 + y) % 0x100 == x
  {
    RemainderOfSum(x + y, (x + y) % 0x100, -y, 0x100);
    RemainderOfSum(x - y, (x - y) % 0x100, y, 0x100);
    SmallMod(x, 0x100);
  }

  /** Adding one more is adding and then counting on. */
  lemma AddingOneMore(reg: seq<Byte>, a: Byte, b: Byte, c: Byte)
    requires |reg| == 8 && IsRegister(a) && IsRegister(b) && a != b && reg[b] < 255
    ensures After(ADD, reg[b := reg[b] + 1], a, b, c)[a] == After(INC, After(ADD, reg, a, b, c), a, b, c)[a]
  {
    var x: int, y: int := reg[a], reg[b];
    assert x + (y + 1) == x + y + 1;
    RemainderOfSum(x + y, (x + y) % 0x100, 1, 0x100);
  }

  // Products and quotients.

  lemma ProductsAndQuotients(reg: seq<Byte>, a: Byte, b: Byte, c: Byte)
    requires |reg| == 8 && IsRegister(a) && IsRegister(b) && IsRegister(c)
    ensures Same(After(MUL, reg, a, b, c)[a], reg[b] as int * reg[c] as int)
    ensures reg[c] == 0 ==> After(MUL, reg, a, b, c)[a] == 0
    ensures reg[c] != 0 ==>
              var y: int, z: int, q: int := reg[b], reg[c], After(DIV, reg, a, b, c)[a];
              q * z <= y < q * z + z
  {
    var y: int, z: int := reg[b], reg[c];
    ProductIsSame(y * z);
    if z != 0 {
      DivisionIsFloor(y, z);
    }
  }

  lemma ProductIsSame(n: int)
    ensures Same(n % 0x100, n)
  {
  }

  lemma DivisionIsFloor(y: int, z: int)
    requires 0 <= y && 0 < z
    ensures y / z * z <= y < y / z * z + z
  {
  }

  /** Multiplying by one more is multiplying and then adding. */
  lemma MultiplyingByOneMore(reg: seq<Byte>, a: Byte, b: Byte, c: Byte)
    requires |reg| == 8 && IsRegister(a) && IsRegister(b) && IsRegister(c)
    requires a != b && a != c && b != c && reg[c] < 255
    ensures After(MUL, reg[c := reg[c] + 1], a, b, c)[a] == After(ADD, After(MUL, reg, a, b, c), a, b, c)[a]
  {
    var y: int, z: int := reg[b], reg[c];
    assert y * (z + 1) == y * z + y;
    RemainderOfSum(y * z, y * z % 0x100, y, 0x100);
  }

  // Bits.

  lemma BitwiseResults(reg: seq<Byte>, a: Byte, b: Byte, c: Byte, i: nat)
    requires |reg| == 8 && IsRegister(a) && IsRegister(b)
    ensures Bit(After(AND, reg, a, b, c)[a], i) <==> Bit(reg[a], i) && Bit(reg[b], i)
    ensures Bit(After(OR, reg, a, b, c)[a], i) <==> Bit(reg[a], i) || Bit(reg[b], i)
    ensures Bit(After(XOR, reg, a, b, c)[a], i) <==> Bit(reg[a], i) != Bit(reg[b], i)
    ensures reg[a] as int + After(NOT, reg, a, b, c)[a] as int == 255
  {
    hide Bit, BitAnd, BitOr, BitXor;
    BitByBit(reg[a], reg[b], i);
  }

  // Memory.

  /** A program's address names the cell behind the first 0x4000, as far as the memory reaches. */
  lemma UserCells(address: Word, memory: seq<Byte>)
    requires |memory| > 0
    ensures CellOf(address, memory) == (address + 0x4000) % 0x1_0000_0000 % |memory|
    ensures address + 0x4000 < |memory| <= 0x1_0000_0000 ==> CellOf(address, memory) == address + 0x4000
  {
    assert USER_BEGIN + address == address + 0x4000;
    if address + 0x4000 < |memory| <= 0x1_0000_0000 {
      SmallMod(address + 0x4000, 0x1_0000_0000);
      SmallMod(address + 0x4000, |memory|);
    }
  }

  /** What is stored at an address is loaded from it, and no other cell changes. */
  lemma LoadsWhatIsStored(program: Program, m: Machine, service: Service)
    requires IsMachine(m) && m.pc < MAX_PROGRAM_SIZE && |service.reg| == REGISTERS
    requires program[m.pc] in {MOVMW, MOVMR} && IsRegister(program[m.pc + 1])
    ensures var r, a := Step(program, m, service), program[m.pc + 1];
      var cell := (WordAtPc(program, m.pc + 2) + 0x4000) % 0x1_0000_0000 % |m.memory|;
      && r.Running?
      && (program[m.pc] == MOVMW ==> r.machine == m.(memory := m.memory[cell := m.reg[a]], pc := m.pc + 6))
      && (program[m.pc] == MOVMR ==> r.machine == m.(reg := m.reg[a := m.memory[cell]], pc := m.pc + 6))
  {
  }
}
