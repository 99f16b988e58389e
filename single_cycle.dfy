/**
 * The machine state of the single-cycle emulator (ca-pa2/pa2.c) and the
 * effect of one decoded instruction on it (process_instruction, lines
 * 215-311), as pure functions. The class in single_cycle_machine.dfy updates
 * arrays in place and is proved to agree with Execute and Run.
 *
 * Where the code departs from MIPS32, this model follows the code:
 * lw and sw add the zero-extended immediate to the base register, slti
 * compares unsigned against the zero-extended immediate, and sra is only
 * defined while bit 31 of the operand is clear (for a set bit the source's
 * mask arithmetic overflows `int`).
 */
module SingleCycle {
  import opened Words
  import opened Bitwise
  import opened SingleCycleDecode

  /** `1 << 20` bytes of memory. */
  const MEMORY_SIZE: nat := 0x10_0000
  const INITIAL_PC: u32 := 0x1000
  const INITIAL_SP: u32 := 0x8000
  /** The word the loader appends after a program; run_program stops on it. */
  const HALT: u32 := 0xFFFF_FFFF

  datatype State = State(regs: seq<u32>, mem: seq<u8>, pc: u32)

  predicate WellFormed(s: State)
  {
    |s.regs| == 32 && |s.mem| == MEMORY_SIZE
  }

  /**
   * The initialised part of memory[]: 0x00..0x77, 0xdeadbeef, then the
   * texts "hello world!!" and "awesome computer architecture.".
   */
  const MEMORY_PREFIX: seq<u8> := [
    0x00, 0x11, 0x22, 0x33, 0x44, 0x55, 0x66, 0x77,
    0xde, 0xad, 0xbe, 0xef, 0x00, 0x00, 0x00, 0x00,
    0x68, 0x65, 0x6c, 0x6c, 0x6f, 0x20, 0x77, 0x6f,
    0x72, 0x6c, 0x64, 0x21, 0x21, 0x00, 0x00, 0x00,
    0x61, 0x77, 0x65, 0x73, 0x6f, 0x6d, 0x65, 0x20,
    0x63, 0x6f, 0x6d, 0x70, 0x75, 0x74, 0x65, 0x72,
    0x20, 0x61, 0x72, 0x63, 0x68, 0x69, 0x74, 0x65,
    0x63, 0x74, 0x75, 0x72, 0x65, 0x2e, 0x00, 0x00
  ]

  /** registers[] as initialised: s0..s7 hold test values, sp holds INITIAL_SP. */
  const INITIAL_REGISTERS: seq<u32> := [
    0, 0, 0, 0, 0, 0, 0, 0,
    0, 0, 0, 0, 0, 0, 0, 0,
    0x10, INITIAL_PC, 0x20, 3, 0xbadacafe, 0xcdcdcdcd, 0xffffffff, 7,
    0, 0, 0, 0, 0, INITIAL_SP, 0, 0
  ]

  function InitialByte(i: nat): u8
  {
    if i < |MEMORY_PREFIX| then MEMORY_PREFIX[i] else 0
  }

  function Register(s: State, r: Reg): u32
    requires WellFormed(s)
  {
    s.regs[r]
  }

  function SetRegister(s: State, r: Reg, v: u32): (t: State)
    requires WellFormed(s)
    ensures WellFormed(t)
  {
    s.(regs := s.regs[r := v])
  }

  /** `(int16_t)immed_num`: the 16-bit immediate read as two's complement. */
  function SignedImm(imm: Imm16): int
  {
    if imm < 0x8000 then imm else imm - 0x1_0000
  }

  /** The 32-bit pattern of the sign-extended immediate, as `unsigned int` sees it. */
  function SignExtend16(imm: Imm16): u32
  {
    if imm < 0x8000 then imm as u32 else (imm + 0xFFFF_0000) as u32
  }

  /** Bytes read most significant first, one `word = (word << 8) | byte` at a time. */
  function BigEndian(bytes: seq<u8>): nat
  {
    if bytes == [] then 0 else BigEndian(bytes[..|bytes| - 1]) * 256 + bytes[|bytes| - 1] as nat
  }

  /** The word at memory[a..a+3], most significant byte first (lines 290-293). */
  function LoadWord(mem: seq<u8>, a: nat): u32
    requires a + 4 <= |mem|
  {
    (((mem[a] as int * 0x100 + mem[a + 1] as int) * 0x100 + mem[a + 2] as int) * 0x100 + mem[a + 3] as int) as u32
  }

  /** `(word >> (24 - 8 * i)) & 0xFF`: byte i of the word, counted from the most significant one. */
  function ByteOf(w: u32, i: nat): u8
    requires i < 4
  {
    (ShiftRight(w, 24 - 8 * i) as int % 0x100) as u8
  }

  function WordBytes(w: u32): seq<u8>
  {
    [ByteOf(w, 0), ByteOf(w, 1), ByteOf(w, 2), ByteOf(w, 3)]
  }

  /** memory[a..a+3] overwritten with the bytes of w, most significant first (lines 300-303). */
  function StoreWord(mem: seq<u8>, a: nat, w: u32): seq<u8>
    requires a + 4 <= |mem|
  {
    mem[..a] + WordBytes(w) + mem[a + 4..]
  }

  /** `registers[rs] + immed_hex` on `unsigned int`: the zero-extended immediate is added. */
  function Address(s: State, rs: Reg, imm: Imm16): nat
    requires WellFormed(s)
  {
    Wrap(s.regs[rs] as int + imm) as nat
  }

  /** `(pc & 0xf0000000) | (addr_num << 2)`. */
  function JumpTarget(pc: u32, target: Target): u32
  {
    Or(And(pc, 0xF000_0000), ShiftLeft(target as u32, 2))
  }

  /** `pc + (signed_immed << 2)`, wrapping as `unsigned int`. */
  function BranchTarget(pc: u32, imm: Imm16): u32
  {
    Wrap(pc as int + SignedImm(imm) * 4)
  }

  /**
   * The instructions whose C code is defined: lw and sw stay inside memory[],
   * and sra only sees a clear sign bit.
   */
  predicate Defined(s: State, d: Decoded)
    requires WellFormed(s)
  {
    match d.fields
    case RFields(_, rt, _, _, funct) => funct == 0x03 ==> s.regs[rt] < 0x8000_0000
    case JFields(_) => true
    case IFields(rs, _, imm) =>
      (d.opcode == 0x23 || d.opcode == 0x2b) ==> Address(s, rs, imm) + 4 <= |s.mem|
  }

  /** The effect of one decoded instruction; pc has already been advanced past it. */
  function Execute(s: State, d: Decoded): (t: State)
    requires WellFormed(s) && Defined(s, d)
    ensures WellFormed(t)
  {
    match d.fields
    case RFields(rs, rt, rd, shamt, funct) => ExecuteR(s, rs, rt, rd, shamt, funct)
    case JFields(target) => ExecuteJ(s, d.opcode, target)
    case IFields(rs, rt, imm) => ExecuteI(s, d.opcode, rs, rt, imm)
  }

  /** The funct cases of lines 215-256; an unmatched funct falls through to the halt branch. */
  function ExecuteR(s: State, rs: Reg, rt: Reg, rd: Reg, shamt: Reg, funct: Code): (t: State)
    requires WellFormed(s)
    requires funct == 0x03 ==> s.regs[rt] < 0x8000_0000
    ensures WellFormed(t)
  {
    var a, b := s.regs[rs], s.regs[rt];
    if funct == 0x20 then SetRegister(s, rd, Wrap(a as int + b as int))
    else if funct == 0x22 then SetRegister(s, rd, Wrap(a as int - b as int))
    else if funct == 0x24 then SetRegister(s, rd, And(a, b))
    else if funct == 0x25 then SetRegister(s, rd, Or(a, b))
    else if funct == 0x27 then SetRegister(s, rd, Not(Or(a, b)))
    else if funct == 0x00 then SetRegister(s, rd, ShiftLeft(b, shamt))
    else if funct == 0x02 then SetRegister(s, rd, ShiftRight(b, shamt))
    // sra: with the sign bit clear the mask stays 0
    else if funct == 0x03 then SetRegister(s, rd, Or(ShiftRight(b, shamt), 0))
    else if funct == 0x2a then SetRegister(s, rd, if Signed(a) < Signed(b) then 1 else 0)
    else if funct == 0x08 then s.(pc := a)
    else s
  }

  /** j and jal (lines 257-263). */
  function ExecuteJ(s: State, opcode: Code, target: Target): (t: State)
    requires WellFormed(s)
    ensures WellFormed(t)
  {
    if opcode == 0x02 then s.(pc := JumpTarget(s.pc, target))
    else if opcode == 0x03 then s.(regs := s.regs[31 := s.pc], pc := JumpTarget(s.pc, target))
    else s
  }

  /** The I-format opcode cases of lines 264-308; any other opcode is the halt branch. */
  function ExecuteI(s: State, opcode: Code, rs: Reg, rt: Reg, imm: Imm16): (t: State)
    requires WellFormed(s)
    requires opcode == 0x23 || opcode == 0x2b ==> Address(s, rs, imm) + 4 <= |s.mem|
    ensures WellFormed(t)
  {
    var a, b := s.regs[rs], s.regs[rt];
    if opcode == 0x04 then (if a == b then s.(pc := BranchTarget(s.pc, imm)) else s)
    else if opcode == 0x05 then (if a != b then s.(pc := BranchTarget(s.pc, imm)) else s)
    // the int16_t operand is converted to unsigned int: the sum wraps
    else if opcode == 0x08 then SetRegister(s, rt, Wrap(a as int + SignedImm(imm)))
    else if opcode == 0x0c then SetRegister(s, rt, And(a, imm as u32))
    else if opcode == 0x0d then SetRegister(s, rt, Or(a, imm as u32))
    else if opcode == 0x23 then SetRegister(s, rt, LoadWord(s.mem, Address(s, rs, imm)))
    else if opcode == 0x2b then s.(mem := StoreWord(s.mem, Address(s, rs, imm), b))
    else if opcode == 0x0a then SetRegister(s, rt, if a < imm as u32 then 1 else 0)
    else s
  }

  datatype Status = Halted | OutOfFuel | Fault

  datatype Outcome = Outcome(status: Status, state: State)

  /** memory[pc..pc+3] lies inside memory[]. */
  predicate CanFetch(s: State)
  {
    s.pc as int + 4 <= |s.mem|
  }

  function Fetch(s: State): u32
    requires CanFetch(s)
  {
    LoadWord(s.mem, s.pc as nat)
  }

  /** `pc += 4`. */
  function Advance(s: State): State
  {
    s.(pc := Wrap(s.pc as int + 4))
  }

  /** One round of run_program's loop on a word that is not HALT: advance pc, then execute. */
  function Step(s: State): (t: State)
    requires WellFormed(s) && CanFetch(s) && Defined(Advance(s), Decode(Fetch(s)))
    ensures WellFormed(t)
  {
    Execute(Advance(s), Decode(Fetch(s)))
  }

  /**
   * The loop of run_program (lines 397-405) from state s, executing at most
   * fuel instructions: fetch the word at pc and continue with RunWord. A
   * fetch outside memory[] ends the run with Fault.
   */
  function Run(s: State, fuel: nat): Outcome
    requires WellFormed(s)
    decreases fuel, 1
  {
    if !CanFetch(s) then Outcome(Fault, s)
    else RunWord(s, Fetch(s), fuel)
  }

  /**
   * The rest of one round on the fetched word: stop on HALT after advancing
   * pc, otherwise advance pc, execute and go on. A word whose C code is
   * undefined ends the run with Fault, in the state before its fetch.
   */
  function RunWord(s: State, instr: u32, fuel: nat): Outcome
    requires WellFormed(s) && CanFetch(s) && instr == Fetch(s)
    decreases fuel, 0
  {
    if instr == HALT then Outcome(Halted, Advance(s))
    else if fuel == 0 then Outcome(OutOfFuel, s)
    else if !Defined(Advance(s), Decode(instr)) then Outcome(Fault, s)
    else Run(Step(s), fuel - 1)
  }
}
