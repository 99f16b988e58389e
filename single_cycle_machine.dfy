/**
 * The single-cycle emulator (ca-pa2/pa2.c) as the C program keeps it: the
 * globals registers[], memory[] and pc become the fields of a Machine whose
 * methods update them in place. process_instruction and run_program are
 * proved to agree with the pure Execute and Run of single_cycle.dfy, so
 * every property proved there holds of this code.
 */
module SingleCycleMachine {
  import opened Words
  import opened Bitwise
  import opened SingleCycleDecode
  import opened SingleCycle
  import opened SingleCycleProperties

  /** The state the globals are initialised with (lines 44-81). */
  function InitialState(): (s: State)
    ensures WellFormed(s)
  {
    State(INITIAL_REGISTERS, seq(MEMORY_SIZE, i requires 0 <= i => InitialByte(i)), INITIAL_PC)
  }

  /** 256^i: the bound on a word assembled from i bytes. */
  const BYTE_PLACES: seq<nat> := [1, 0x100, 0x1_0000, 0x100_0000, 0x1_0000_0000]

  class Machine {
    var registers: array<u32>
    var memory: array<u8>
    var pc: u32

    ghost predicate Valid()
      reads this
    {
      registers.Length == 32 && memory.Length == MEMORY_SIZE
    }

    /** The machine state the three globals hold. */
    ghost function Current(): (s: State)
      reads this, registers, memory
      requires Valid()
      ensures WellFormed(s)
    {
      State(registers[..], memory[..], pc)
    }

    constructor ()
      ensures Valid() && Current() == InitialState()
      ensures fresh(registers) && fresh(memory)
    {
      registers := new u32[32](i requires 0 <= i < 32 => INITIAL_REGISTERS[i]);
      memory := new u8[MEMORY_SIZE](i => InitialByte(i));
      pc := INITIAL_PC;
    }

    /** `registers[r] = v`. */
    method WriteRegister(r: Reg, v: u32)
      requires Valid()
      modifies registers
      ensures Valid() && Current() == SetRegister(old(Current()), r, v)
    {
      registers[r] := v;
    }

    /**
     * The funct cases of process_instruction (lines 215-256), on the fields
     * read from the R-format buffers.
     */
    method ExecuteRInPlace(rs: Reg, rt: Reg, rd: Reg, shamt: Reg, funct: Code)
      requires Valid() && (funct == 0x03 ==> registers[rt] < 0x8000_0000)
      modifies this, registers
      ensures Valid() && registers == old(registers) && memory == old(memory)
      ensures Current() == ExecuteR(old(Current()), rs, rt, rd, shamt, funct)
    {
      var a, b := registers[rs], registers[rt];
      if funct == 0x20 {
        WriteRegister(rd, Wrap(a as int + b as int));
      } else if funct == 0x22 {
        WriteRegister(rd, Wrap(a as int - b as int));
      } else if funct == 0x24 {
        WriteRegister(rd, And(a, b));
      } else if funct == 0x25 {
        WriteRegister(rd, Or(a, b));
      } else if funct == 0x27 {
        WriteRegister(rd, Not(Or(a, b)));
      } else if funct == 0x00 {
        WriteRegister(rd, ShiftLeft(b, shamt));
      } else if funct == 0x02 {
        WriteRegister(rd, ShiftRight(b, shamt));
      } else if funct == 0x03 {
        // sra: the sign bit of rt is clear, so the mask stays 0
        var signBit := ShiftRight(b, 31) as int % 2;
        var temp := ShiftRight(b, shamt);
        ShiftRightValue(b, 31);
        Pow2Word();
        assert signBit == 0;
        var mask: u32 := 0;
        WriteRegister(rd, Or(temp, mask));
      } else if funct == 0x2a {
        WriteRegister(rd, if Signed(a) < Signed(b) then 1 else 0);
      } else if funct == 0x08 {
        pc := a;
      }
    }

    /** j and jal (lines 257-263). */
    method ExecuteJInPlace(opcode: Code, target: Target)
      requires Valid()
      modifies this, registers
      ensures Valid() && registers == old(registers) && memory == old(memory)
      ensures Current() == ExecuteJ(old(Current()), opcode, target)
    {
      if opcode == 0x02 {
        pc := JumpTarget(pc, target);
      } else if opcode == 0x03 {
        WriteRegister(31, pc);
        pc := JumpTarget(pc, target);
      }
    }

    /**
     * The word loop of lw (lines 290-293): `word = (word << 8) | memory[address + i]`
     * for i = 0..3.
     */
    method LoadWordInPlace(address: nat) returns (word: u32)
      requires Valid() && address + 4 <= memory.Length
      ensures word == LoadWord(memory[..], address)
    {
      ghost var bytes := memory[address..address + 4];
      word := 0;
      for i := 0 to 4
        invariant word as int == BigEndian(bytes[..i])
        invariant word as int < BYTE_PLACES[i]
      {
        assert BYTE_PLACES[i + 1] == BYTE_PLACES[i] * 0x100 && BYTE_PLACES[i] <= 0x100_0000;
        AppendByte(word, memory[address + i]);
        assert bytes[..i + 1][..i] == bytes[..i];
        word := Or(ShiftLeft(word, 8), memory[address + i] as u32);
      }
      assert bytes[..4] == bytes;
      LoadWordIsBigEndian(memory[..], address);
    }

    /**
     * The byte loop of sw (lines 300-303): `memory[address + i] = (word >> (24 - 8 * i)) & 0xFF`
     * for i = 0..3.
     */
    method StoreWordInPlace(address: nat, word: u32)
      requires Valid() && address + 4 <= memory.Length
      modifies memory
      ensures memory[..] == StoreWord(old(memory[..]), address, word)
    {
      ghost var before := memory[..];
      for i := 0 to 4
        invariant memory[..] == before[..address] + WordBytes(word)[..i] + before[address + i..]
      {
        memory[address + i] := (ShiftRight(word, 24 - 8 * i) as int % 0x100) as u8;
        assert WordBytes(word)[..i + 1] == WordBytes(word)[..i] + [ByteOf(word, i)];
      }
      assert WordBytes(word)[..4] == WordBytes(word);
    }

    /** lw (lines 287-295), given immed_hex. */
    method LoadInPlace(rs: Reg, rt: Reg, imm: Imm16, immedHex: nat)
      requires Valid() && immedHex == imm && Address(Current(), rs, imm) + 4 <= memory.Length
      modifies registers
      ensures Valid() && Current() == ExecuteI(old(Current()), 0x23, rs, rt, imm)
    {
      LwEffect(Current(), rs, rt, imm);
      var word := LoadWordInPlace(Wrap(registers[rs] as int + immedHex) as nat);
      WriteRegister(rt, word);
    }

    /** sw (lines 296-304), given immed_hex. */
    method StoreInPlace(rs: Reg, rt: Reg, imm: Imm16, immedHex: nat)
      requires Valid() && immedHex == imm && Address(Current(), rs, imm) + 4 <= memory.Length
      modifies memory
      ensures Valid() && Current() == ExecuteI(old(Current()), 0x2b, rs, rt, imm)
    {
      SwEffect(Current(), rs, rt, imm);
      StoreWordInPlace(Wrap(registers[rs] as int + immedHex) as nat, registers[rt]);
    }

    /**
     * The I-format opcode cases (lines 264-308). lw and sw add immed_hex,
     * the immediate written out as hex text and read back (lines 202-211).
     */
    method ExecuteIInPlace(opcode: Code, rs: Reg, rt: Reg, imm: Imm16)
      requires Valid()
      requires opcode == 0x23 || opcode == 0x2b ==> Wrap(registers[rs] as int + imm) as int + 4 <= memory.Length
      modifies this, registers, memory
      ensures Valid() && registers == old(registers) && memory == old(memory)
      ensures Current() == ExecuteI(old(Current()), opcode, rs, rt, imm)
    {
      var hex := ToHex(imm);
      var immedHex := ParseHex(hex);
      var a, b := registers[rs], registers[rt];
      if opcode == 0x04 {
        if a == b {
          pc := BranchTarget(pc, imm);
        }
      } else if opcode == 0x05 {
        if a != b {
          pc := BranchTarget(pc, imm);
        }
      } else if opcode == 0x08 {
        WriteRegister(rt, Wrap(a as int + SignedImm(imm)));
      } else if opcode == 0x0c {
        WriteRegister(rt, And(a, imm as u32));
      } else if opcode == 0x0d {
        WriteRegister(rt, Or(a, imm as u32));
      } else if opcode == 0x23 {
        LoadInPlace(rs, rt, imm, immedHex);
      } else if opcode == 0x2b {
        StoreInPlace(rs, rt, imm, immedHex);
      } else if opcode == 0x0a {
        WriteRegister(rt, if a < imm as u32 then 1 else 0);
      }
    }

    /**
     * process_instruction (lines 140-313): the word is written out in
     * binary, its field buffers are read back, and the case that matches
     * changes registers[], memory[] or pc exactly as Execute does.
     */
    method ProcessInstruction(instr: u32)
      requires Valid() && Defined(Current(), Decode(instr))
      modifies this, registers, memory
      ensures Valid() && registers == old(registers) && memory == old(memory)
      ensures Current() == Execute(old(Current()), Decode(instr))
    {
      var d := DecodeInstruction(instr);
      match d.fields
      case RFields(rs, rt, rd, shamt, funct) =>
        ExecuteRInPlace(rs, rt, rd, shamt, funct);
      case JFields(target) =>
        ExecuteJInPlace(d.opcode, target);
      case IFields(rs, rt, imm) =>
        ExecuteIInPlace(d.opcode, rs, rt, imm);
    }

    /** Whether the C code of the decoded word is defined on the current state. */
    method IsDefined(d: Decoded) returns (b: bool)
      requires Valid()
      ensures b == Defined(Current(), d)
    {
      match d.fields
      case RFields(_, rt, _, _, funct) =>
        b := funct == 0x03 ==> registers[rt] < 0x8000_0000;
      case JFields(_) =>
        b := true;
      case IFields(rs, _, imm) =>
        b := (d.opcode == 0x23 || d.opcode == 0x2b) ==> Wrap(registers[rs] as int + imm) as int + 4 <= memory.Length;
    }

    /** The fetch expression of run_program (lines 398-399). */
    method FetchInstruction() returns (instr: u32)
      requires Valid() && CanFetch(Current())
      ensures instr == Fetch(Current())
    {
      var b0, b1, b2, b3 := memory[pc], memory[pc + 1], memory[pc + 2], memory[pc + 3];
      instr := Or(Or(Or(ShiftLeft(b0 as u32, 24), ShiftLeft(b1 as u32, 16)), ShiftLeft(b2 as u32, 8)), b3 as u32);
      FetchBytes(b0, b1, b2, b3);
    }

    /** One round of run_program's loop on a fetched word that is not HALT: `pc += 4`, then process it. */
    method StepInPlace(instr: u32)
      requires Valid() && CanFetch(Current()) && instr == Fetch(Current())
      requires Defined(Current(), Decode(instr))
      modifies this, registers, memory
      ensures Valid() && registers == old(registers) && memory == old(memory)
      ensures Current() == Step(old(Current()))
    {
      pc := Wrap(pc as int + 4);
      ProcessInstruction(instr);
    }

    /**
     * One round of run_program's loop (lines 398-404) with `left` words
     * still allowed: either the run stops here with the outcome Run gives,
     * or one word was processed and the run goes on with one less.
     */
    method Cycle(left: nat) returns (stop: bool, status: Status)
      requires Valid()
      modifies this, registers, memory
      ensures Valid() && registers == old(registers) && memory == old(memory)
      ensures stop ==> Run(old(Current()), left) == Outcome(status, Current())
      ensures !stop ==> left > 0 && Run(old(Current()), left) == Run(Current(), left - 1)
    {
      RunStops(Current(), left);
      if pc as int + 4 > memory.Length {
        return true, Fault;
      }
      var instruct := FetchInstruction();
      if instruct == HALT {
        pc := Wrap(pc as int + 4);
        return true, Halted;
      }
      if left == 0 {
        return true, OutOfFuel;
      }
      var defined := IsDefined(Decode(instruct));
      if !defined {
        return true, Fault;
      }
      RunUnfold(Current(), left);
      StepInPlace(instruct);
      return false, Fault;
    }

    /**
     * run_program (lines 391-407): from INITIAL_PC, fetch each word, stop on
     * HALT after advancing pc, otherwise advance pc and process the word.
     * At most fuel words are processed; the outcome and the final state are
     * those of Run.
     */
    method RunProgram(fuel: nat) returns (status: Status)
      requires Valid()
      modifies this, registers, memory
      ensures Valid() && registers == old(registers) && memory == old(memory)
      ensures var o := Run(old(Current()).(pc := INITIAL_PC), fuel);
        status == o.status && Current() == o.state
    {
      pc := INITIAL_PC;
      ghost var target := Run(Current(), fuel);
      var left := fuel;
      while true
        invariant Valid() && registers == old(registers) && memory == old(memory)
        invariant Run(Current(), left) == target
        decreases left
      {
        var stop;
        stop, status := Cycle(left);
        if stop {
          return;
        }
        left := left - 1;
      }
    }
  }
}
