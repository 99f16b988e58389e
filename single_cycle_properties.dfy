/**
 * What the single-cycle emulator (ca-pa2/pa2.c) promises about each
 * instruction and about run_program, proved of the functions in
 * single_cycle.dfy.
 */
module SingleCycleProperties {
  import opened Words
  import opened Bitwise
  import opened SingleCycleDecode
  import opened SingleCycle

  /** The funct values with a case of their own in process_instruction. */
  const R_FUNCTS: set<nat> := {0x20, 0x22, 0x24, 0x25, 0x27, 0x00, 0x02, 0x03, 0x2a, 0x08}

  /** The R-format cases that write registers[rd]. */
  const REGISTER_FUNCTS: set<nat> := {0x20, 0x22, 0x24, 0x25, 0x27, 0x00, 0x02, 0x03, 0x2a}

  /** The opcodes with a case of their own in process_instruction, besides R-format. */
  const OPCODES: set<nat> := {0x02, 0x03, 0x04, 0x05, 0x08, 0x0c, 0x0d, 0x23, 0x2b, 0x0a}

  // ---------------------------------------------------------------------
  // Words in memory: big-endian loads and stores
  // ---------------------------------------------------------------------

  lemma BigEndianFour(b0: u8, b1: u8, b2: u8, b3: u8)
    ensures BigEndian([b0, b1, b2, b3]) == ((b0 as int * 256 + b1 as int) * 256 + b2 as int) * 256 + b3 as int
  {
    var s := [b0, b1, b2, b3];
    assert s[..3] == [b0, b1, b2];
    assert [b0, b1, b2][..2] == [b0, b1];
    assert [b0, b1][..1] == [b0];
    assert [b0][..0] == [];
    assert BigEndian([b0]) == b0 as int;
    assert BigEndian([b0, b1]) == b0 as int * 256 + b1 as int;
  }

  /** LoadWord is the value of the four bytes read one at a time, as the loop of lw does. */
  lemma LoadWordIsBigEndian(mem: seq<u8>, a: nat)
    requires a + 4 <= |mem|
    ensures LoadWord(mem, a) as int == BigEndian(mem[a..a + 4])
  {
    assert mem[a..a + 4] == [mem[a], mem[a + 1], mem[a + 2], mem[a + 3]];
    BigEndianFour(mem[a], mem[a + 1], mem[a + 2], mem[a + 3]);
  }

  /** `(word >> (24 - 8 * i)) & 0xFF` is byte i of the word, counted from the most significant one. */
  lemma ByteValues(w: u32)
    ensures ByteOf(w, 0) as int == w as int / 0x100_0000 % 0x100
    ensures ByteOf(w, 1) as int == w as int / 0x1_0000 % 0x100
    ensures ByteOf(w, 2) as int == w as int / 0x100 % 0x100
    ensures ByteOf(w, 3) as int == w as int % 0x100
  {
    Pow2Bytes();
    ShiftRightValue(w, 24);
    ShiftRightValue(w, 16);
    ShiftRightValue(w, 8);
  }

  /** A word is its four base-256 digits. */
  lemma WordDigits(x: int)
    requires 0 <= x < 0x1_0000_0000
    ensures x == ((x / 0x100_0000 * 0x100 + x / 0x1_0000 % 0x100) * 0x100 + x / 0x100 % 0x100) * 0x100 + x % 0x100
  {
    var a := x / 0x100;
    var b := a / 0x100;
    DivDiv(x, 0x100, 0x100);
    DivDiv(x, 0x1_0000, 0x100);
    assert b / 0x100 == x / 0x100_0000;
    assert x == a * 0x100 + x % 0x100;
    assert a == b * 0x100 + a % 0x100;
    assert b == (b / 0x100) * 0x100 + b % 0x100;
  }

  /** The four bytes sw writes, read back most significant first, are the stored word. */
  lemma WordBytesValue(w: u32)
    ensures BigEndian(WordBytes(w)) == w as nat
  {
    var x := w as int;
    var b0, b1, b2, b3 := ByteOf(w, 0) as int, ByteOf(w, 1) as int, ByteOf(w, 2) as int, ByteOf(w, 3) as int;
    ByteValues(w);
    DivBelow(x, 0x100_0000, 0x100);
    assert b0 == x / 0x100_0000;
    WordDigits(x);
    assert x == ((b0 * 0x100 + b1) * 0x100 + b2) * 0x100 + b3;
    BigEndianFour(ByteOf(w, 0), ByteOf(w, 1), ByteOf(w, 2), ByteOf(w, 3));
  }

  /** sw changes exactly the four bytes at the address, and they hold the word's bytes. */
  lemma StoreWordFrame(mem: seq<u8>, a: nat, w: u32)
    requires a + 4 <= |mem|
    ensures |StoreWord(mem, a, w)| == |mem|
    ensures StoreWord(mem, a, w)[a..a + 4] == WordBytes(w)
    ensures forall i :: 0 <= i < |mem| && !(a <= i < a + 4) ==> StoreWord(mem, a, w)[i] == mem[i]
  {
    var m := StoreWord(mem, a, w);
    assert m == mem[..a] + WordBytes(w) + mem[a + 4..];
    forall i | 0 <= i < |mem| && !(a <= i < a + 4)
      ensures m[i] == mem[i]
    {
      if i < a {
        assert m[i] == mem[..a][i];
      } else {
        assert m[i] == mem[a + 4..][i - a - 4];
      }
    }
  }

  /** A load from the address of a store returns the stored word. */
  lemma LoadAfterStore(mem: seq<u8>, a: nat, w: u32)
    requires a + 4 <= |mem|
    ensures LoadWord(StoreWord(mem, a, w), a) == w
  {
    StoreWordFrame(mem, a, w);
    WordBytesValue(w);
    LoadWordIsBigEndian(StoreWord(mem, a, w), a);
  }

  lemma SwEffect(s: State, rs: Reg, rt: Reg, imm: Imm16)
    requires WellFormed(s) && Address(s, rs, imm) + 4 <= |s.mem|
    ensures var t := ExecuteI(s, 0x2b, rs, rt, imm);
      t.regs == s.regs && t.pc == s.pc && t.mem == StoreWord(s.mem, Address(s, rs, imm), s.regs[rt])
  {
  }

  lemma LwEffect(s: State, rs: Reg, rt: Reg, imm: Imm16)
    requires WellFormed(s) && Address(s, rs, imm) + 4 <= |s.mem|
    ensures ExecuteI(s, 0x23, rs, rt, imm).regs[rt] == LoadWord(s.mem, Address(s, rs, imm))
  {
  }

  /**
   * sw leaves registers and pc alone and changes only bytes addr..addr+3,
   * where addr is rs plus the zero-extended immediate; lw from the same base
   * and immediate then reads back the stored register.
   */
  lemma SwThenLw(s: State, rs: Reg, rt: Reg, rt2: Reg, imm: Imm16)
    requires WellFormed(s) && Address(s, rs, imm) + 4 <= |s.mem|
    ensures var t := ExecuteI(s, 0x2b, rs, rt, imm);
      && t.regs == s.regs && t.pc == s.pc
      && (forall i :: 0 <= i < |s.mem| && !(Address(s, rs, imm) <= i < Address(s, rs, imm) + 4) ==> t.mem[i] == s.mem[i])
      && Address(t, rs, imm) + 4 <= |t.mem|
      && ExecuteI(t, 0x23, rs, rt2, imm).regs[rt2] == s.regs[rt]
  {
    var a := Address(s, rs, imm);
    var t := ExecuteI(s, 0x2b, rs, rt, imm);
    SwEffect(s, rs, rt, imm);
    assert Address(t, rs, imm) == a;
    StoreWordFrame(s.mem, a, s.regs[rt]);
    LoadAfterStore(s.mem, a, s.regs[rt]);
    LwEffect(t, rs, rt2, imm);
  }

  /** `word = (word << 8) | byte` appends one byte to a word that still has room for it. */
  lemma AppendByte(x: u32, b: u8)
    requires x < 0x100_0000
    ensures Or(ShiftLeft(x, 8), b as u32) as int == x as int * 256 + b as int
  {
    Pow2Bytes();
    Pow2Word();
    ShiftLeftSmall(x, 8);
    DivMulAdd(x as int, 0x100, 0);
    OrDisjoint(x as int * 256, b as nat, 8, 32);
  }

  /** `hi | lo` is hi + lo when lo lies below bit k and hi has no bit set there. */
  lemma OrAdd(hi: u32, lo: u32, k: nat)
    requires k <= 32 && hi as int % Pow2(k) == 0 && lo as int < Pow2(k)
    ensures Or(hi, lo) as int == hi as int + lo as int
  {
    Pow2Word();
    OrDisjoint(hi as nat, lo as nat, k, 32);
  }

  lemma FetchHigh(b0: u8, b1: u8)
    ensures Or(ShiftLeft(b0 as u32, 24), ShiftLeft(b1 as u32, 16)) as int == (b0 as int * 0x100 + b1 as int) * 0x1_0000
  {
    Pow2Bytes();
    Pow2Word();
    ShiftLeftSmall(b0 as u32, 24);
    ShiftLeftSmall(b1 as u32, 16);
    DivMulAdd(b0 as int, 0x100_0000, 0);
    OrAdd(ShiftLeft(b0 as u32, 24), ShiftLeft(b1 as u32, 16), 24);
  }

  lemma FetchThird(x: u32, v: nat, b2: u8)
    requires x as int == v * 0x1_0000
    ensures Or(x, ShiftLeft(b2 as u32, 8)) as int == (v * 0x100 + b2 as int) * 0x100
  {
    Pow2Bytes();
    Pow2Word();
    ShiftLeftSmall(b2 as u32, 8);
    DivMulAdd(v, 0x1_0000, 0);
    OrAdd(x, ShiftLeft(b2 as u32, 8), 16);
  }

  lemma FetchLow(x: u32, v: nat, b3: u8)
    requires x as int == v * 0x100
    ensures Or(x, b3 as u32) as int == v * 0x100 + b3 as int
  {
    Pow2Bytes();
    DivMulAdd(v, 0x100, 0);
    OrAdd(x, b3 as u32, 8);
  }

  /** The fetch expression of run_program assembles the same word as LoadWord. */
  lemma FetchBytes(b0: u8, b1: u8, b2: u8, b3: u8)
    ensures Or(Or(Or(ShiftLeft(b0 as u32, 24), ShiftLeft(b1 as u32, 16)), ShiftLeft(b2 as u32, 8)), b3 as u32) as int
         == ((b0 as int * 0x100 + b1 as int) * 0x100 + b2 as int) * 0x100 + b3 as int
  {
    var v1 := b0 as int * 0x100 + b1 as int;
    var x1 := Or(ShiftLeft(b0 as u32, 24), ShiftLeft(b1 as u32, 16));
    FetchHigh(b0, b1);
    FetchThird(x1, v1, b2);
    FetchLow(Or(x1, ShiftLeft(b2 as u32, 8)), v1 * 0x100 + b2 as int, b3);
  }

  // ---------------------------------------------------------------------
  // R-format
  // ---------------------------------------------------------------------

  /** The register-writing R-format cases change registers[rd] and nothing else. */
  lemma RTypeFrame(s: State, rs: Reg, rt: Reg, rd: Reg, shamt: Reg, funct: Code)
    requires WellFormed(s) && funct in REGISTER_FUNCTS
    requires funct == 0x03 ==> s.regs[rt] < 0x8000_0000
    ensures var t := ExecuteR(s, rs, rt, rd, shamt, funct);
      && t.mem == s.mem && t.pc == s.pc
      && forall r :: 0 <= r < 32 && r != rd ==> t.regs[r] == s.regs[r]
  {
  }

  /** add is two's-complement addition: without signed overflow the signed sum is exact. */
  lemma AddIsSigned(a: u32, b: u32)
    requires -0x8000_0000 <= Signed(a) + Signed(b) < 0x8000_0000
    ensures Signed(Wrap(a as int + b as int)) == Signed(a) + Signed(b)
  {
  }

  /** sub undoes add: with rd distinct from rt, add rd, rs, rt; sub rd, rd, rt leaves rs's value in rd. */
  lemma AddThenSub(s: State, rs: Reg, rt: Reg, rd: Reg)
    requires WellFormed(s) && rd != rt
    ensures var t := ExecuteR(s, rs, rt, rd, 0, 0x20);
      ExecuteR(t, rd, rt, rd, 0, 0x22).regs[rd] == s.regs[rs]
  {
    var a, b := s.regs[rs] as int, s.regs[rt] as int;
    WrapAdd(a + b, -b);
  }

  /** Every bit set in a or b is counted once by `|` and, if set in both, once more by `&`. */
  lemma AndOrSum(a: u32, b: u32)
    ensures And(a, b) as int + Or(a, b) as int == a as int + b as int
  {
    Pow2Word();
    OrPlusAnd(a as nat, b as nat, 32);
    DivModUnique(a as int, WORD_MODULUS, 0, a as int);
    DivModUnique(b as int, WORD_MODULUS, 0, b as int);
  }

  /** slt compares signed, slti unsigned: 0xffffffff is below 1 for one and above it for the other. */
  lemma SltVersusSlti(s: State, rs: Reg, rt: Reg, rd: Reg)
    requires WellFormed(s) && s.regs[rs] == 0xFFFF_FFFF && s.regs[rt] == 1
    ensures ExecuteR(s, rs, rt, rd, 0, 0x2a).regs[rd] == 1
    ensures ExecuteI(s, 0x0a, rs, rd, 1).regs[rd] == 0
  {
  }

  /**
   * slt for all operands: rd becomes 1 or 0, and 1 exactly when rs is below
   * rt once both have their sign bit flipped, the order of two's-complement
   * values; every other register, memory and pc are unchanged.
   */
  lemma SltSigned(s: State, rs: Reg, rt: Reg, rd: Reg, shamt: Reg)
    requires WellFormed(s)
    ensures var t, a, b := ExecuteR(s, rs, rt, rd, shamt, 0x2a), s.regs[rs] as int, s.regs[rt] as int;
      && t.regs[rd] <= 1
      && (t.regs[rd] == 1 <==> (a + 0x8000_0000) % WORD_MODULUS < (b + 0x8000_0000) % WORD_MODULUS)
      && (forall r :: 0 <= r < 32 && r != rd ==> t.regs[r] == s.regs[r])
      && t.mem == s.mem && t.pc == s.pc
  {
  }

  /**
   * slti for all operands: rt becomes 1 exactly when rs is below the
   * zero-extended immediate, compared unsigned, so no rs with bit 31 set
   * is ever below it; every other register, memory and pc are unchanged.
   */
  lemma SltiUnsigned(s: State, rs: Reg, rt: Reg, imm: Imm16)
    requires WellFormed(s)
    ensures var t, a := ExecuteI(s, 0x0a, rs, rt, imm), s.regs[rs] as int;
      && t.regs[rt] <= 1
      && (t.regs[rt] == 1 <==> a < imm)
      && (a >= 0x8000_0000 ==> t.regs[rt] == 0)
      && (forall r :: 0 <= r < 32 && r != rt ==> t.regs[r] == s.regs[r])
      && t.mem == s.mem && t.pc == s.pc
  {
  }

  lemma MulBelow(a: int, b: int, c: int)
    requires 0 <= a < b && c > 0
    ensures a * c < b * c
  {
  }

  /** srl by k undoes sll by k when no set bit is shifted out. */
  lemma SllThenSrl(b: u32, k: Reg)
    requires b as int < Pow2(32 - k)
    ensures ShiftRight(ShiftLeft(b, k), k) == b
  {
    Pow2Add(32 - k, k);
    Pow2Word();
    MulBelow(b as int, Pow2(32 - k), Pow2(k));
    ShiftLeftSmall(b, k);
    ShiftRightValue(ShiftLeft(b, k), k);
    DivMulAdd(b as int, Pow2(k), 0);
  }

  /** With bit 31 of rt clear, sra writes what srl writes. */
  lemma SraIsSrl(s: State, rs: Reg, rt: Reg, rd: Reg, shamt: Reg)
    requires WellFormed(s) && s.regs[rt] < 0x8000_0000
    ensures ExecuteR(s, rs, rt, rd, shamt, 0x03) == ExecuteR(s, rs, rt, rd, shamt, 0x02)
  {
    var v := ShiftRight(s.regs[rt], shamt);
    Pow2Word();
    OrZero(v as nat, 32);
    DivModUnique(v as int, WORD_MODULUS, 0, v as int);
  }

  // ---------------------------------------------------------------------
  // I-format
  // ---------------------------------------------------------------------

  /**
   * Adding the int16_t immediate is adding its 32-bit sign extension, whose
   * low half is the immediate, whose high half copies bit 15, and whose
   * signed value is the immediate's.
   */
  lemma AddiSignExtends(a: u32, imm: Imm16)
    ensures Wrap(a as int + SignedImm(imm)) == Wrap(a as int + SignExtend16(imm) as int)
    ensures SignExtend16(imm) as int % 0x1_0000 == imm
    ensures SignExtend16(imm) as int / 0x1_0000 == if imm < 0x8000 then 0 else 0xFFFF
    ensures Signed(SignExtend16(imm)) == SignedImm(imm)
  {
    if imm >= 0x8000 {
      WrapAdd(a as int + SignExtend16(imm) as int, -WORD_MODULUS);
    }
  }

  /** addi with rs = 0xffffffff and immediate 1 gives 0; immediate 0xffff subtracts one. */
  lemma AddiExamples(s: State, rs: Reg, rt: Reg)
    requires WellFormed(s) && s.regs[rs] == 0xFFFF_FFFF
    ensures ExecuteI(s, 0x08, rs, rt, 1).regs[rt] == 0
    ensures ExecuteI(s, 0x08, rs, rt, 0xFFFF).regs[rt] == 0xFFFF_FFFE
  {
  }

  /** andi uses the zero-extended immediate: the upper half of the result is clear. */
  lemma AndiZeroExtends(s: State, rs: Reg, rt: Reg, imm: Imm16)
    requires WellFormed(s)
    ensures ExecuteI(s, 0x0c, rs, rt, imm).regs[rt] <= imm as u32
  {
    AndAtMost(s.regs[rs] as nat, imm, 32);
  }

  /**
   * andi for all operands: the result is the `&` of the low halves of rs
   * and the immediate, so only the low 16 bits of rs matter.
   */
  lemma AndiLowHalf(s: State, rs: Reg, rt: Reg, imm: Imm16)
    requires WellFormed(s)
    ensures var t := ExecuteI(s, 0x0c, rs, rt, imm);
      && t.regs[rt] as int == AndBits(s.regs[rs] as nat, imm, 16)
      && t.regs[rt] as int == AndBits(s.regs[rs] as nat % 0x1_0000, imm, 16)
      && (forall r :: 0 <= r < 32 && r != rt ==> t.regs[r] == s.regs[r])
      && t.mem == s.mem && t.pc == s.pc
  {
    Pow2Fields();
    AndNarrow(s.regs[rs] as nat, imm, 16, 32);
    AndLowHalf(s.regs[rs] as nat, imm, 16);
  }

  /** ori uses the zero-extended immediate: the upper half of rs passes through unchanged. */
  lemma OriKeepsUpper(s: State, rs: Reg, rt: Reg, imm: Imm16)
    requires WellFormed(s)
    ensures ExecuteI(s, 0x0d, rs, rt, imm).regs[rt] as int / 0x1_0000 == s.regs[rs] as int / 0x1_0000
  {
    var a := s.regs[rs] as int;
    Pow2Word();
    OrKeepsHigh(a, imm, 16, 32);
    DivModUnique(a, WORD_MODULUS, 0, a);
  }

  /**
   * beq and bne run after pc has been advanced past them: a taken branch
   * lands 4 + 4 * imm bytes after the branch's own address, an untaken one
   * on the next instruction. Neither touches registers or memory.
   */
  lemma BranchEffect(u: State, opcode: Code, rs: Reg, rt: Reg, imm: Imm16)
    requires WellFormed(u) && (opcode == 0x04 || opcode == 0x05)
    ensures ExecuteI(u, opcode, rs, rt, imm)
         == if (opcode == 0x04) == (u.regs[rs] == u.regs[rt]) then u.(pc := BranchTarget(u.pc, imm)) else u
  {
  }

  lemma BranchFromFetchPc(s: State, opcode: Code, rs: Reg, rt: Reg, imm: Imm16)
    requires WellFormed(s) && (opcode == 0x04 || opcode == 0x05)
    ensures var t := ExecuteI(Advance(s), opcode, rs, rt, imm);
      && t.regs == s.regs && t.mem == s.mem
      && t.pc == if (opcode == 0x04) == (s.regs[rs] == s.regs[rt])
                 then Wrap(s.pc as int + 4 + SignedImm(imm) * 4)
                 else Wrap(s.pc as int + 4)
  {
    BranchEffect(Advance(s), opcode, rs, rt, imm);
    WrapAdd(s.pc as int + 4, SignedImm(imm) * 4);
  }


  /** A taken branch at 0x1000 with immediate 4 continues at 0x1014; immediate 0xffff loops back onto itself. */
  lemma BranchExamples(s: State)
    requires WellFormed(s) && s.pc == 0x1000
    ensures BranchTarget(Advance(s).pc, 4) == 0x1014
    ensures BranchTarget(Advance(s).pc, 0xFFFF) == 0x1000
  {
  }

  // ---------------------------------------------------------------------
  // Jumps
  // ---------------------------------------------------------------------

  /** j and jal keep the top four bits of pc and put target * 4 below them. */
  lemma JumpTargetValue(pc: u32, target: Target)
    ensures JumpTarget(pc, target) as int == pc as int - pc as int % 0x1000_0000 + 4 * target
  {
    var p := pc as int;
    Pow2Bytes();
    Pow2Word();
    assert HighMask(32, 28) == 0xF000_0000;
    AndHighMask(p, 28, 32);
    DivModUnique(p, WORD_MODULUS, 0, p);
    assert Pow2(2) == 4;
    ShiftLeftSmall(target as u32, 2);
    DivMulAdd(p / 0x1000_0000, 0x1000_0000, 0);
    assert p - p % 0x1000_0000 == (p / 0x1000_0000) * 0x1000_0000;
    OrDisjoint(p - p % 0x1000_0000, 4 * target, 28, 32);
  }

  /** jal saves the address after it in $31, so a jr $31 comes back to that address. */
  lemma JalThenJr(s: State, target: Target, rt: Reg, rd: Reg, shamt: Reg)
    requires WellFormed(s)
    ensures var t := ExecuteJ(s, 0x03, target);
      && t.regs[31] == s.pc
      && ExecuteR(t, 31, rt, rd, shamt, 0x08) == t.(pc := s.pc)
  {
  }

  // ---------------------------------------------------------------------
  // Unmatched words
  // ---------------------------------------------------------------------

  /** A decoded word that matches none of the cases takes the halt branch: no state changes. */
  lemma UnmatchedDecodedIsNoop(s: State, d: Decoded)
    requires WellFormed(s)
    requires d.fields.RFields? ==> d.fields.funct !in R_FUNCTS
    requires !d.fields.RFields? ==> d.opcode !in OPCODES
    ensures Defined(s, d) && Execute(s, d) == s
  {
  }

  /**
   * A word whose opcode (bits 31-26) has no case, or whose opcode is 0 and
   * whose funct (bits 5-0) has no case, takes the halt branch: no state
   * changes.
   */
  lemma UnmatchedIsNoop(s: State, instr: u32)
    requires WellFormed(s)
    requires instr as int / 0x400_0000 == 0 ==> instr as int % 0x40 !in R_FUNCTS
    requires instr as int / 0x400_0000 != 0 ==> instr as int / 0x400_0000 !in OPCODES
    ensures Defined(s, Decode(instr)) && Execute(s, Decode(instr)) == s
  {
    UnmatchedDecodedIsNoop(s, Decode(instr));
  }

  /** The halt word itself, opcode 0x3f, changes nothing when executed. */
  lemma HaltIsNoop(s: State)
    requires WellFormed(s)
    ensures Defined(s, Decode(HALT)) && Execute(s, Decode(HALT)) == s
  {
    UnmatchedIsNoop(s, HALT);
  }

  // ---------------------------------------------------------------------
  // run_program
  // ---------------------------------------------------------------------

  /** A run that halts stopped on a HALT word, and pc is left just past it. */
  lemma {:induction false} RunHalts(s: State, fuel: nat)
    requires WellFormed(s)
    ensures var o := Run(s, fuel);
      o.status == Halted ==>
        && 4 <= o.state.pc as int <= |o.state.mem|
        && LoadWord(o.state.mem, o.state.pc as nat - 4) == HALT
    decreases fuel
  {
    if CanFetch(s) && Fetch(s) != HALT && fuel > 0 && Defined(Advance(s), Decode(Fetch(s))) {
      RunHalts(Step(s), fuel - 1);
    }
  }

  /** One more round of run_program's loop, for a word that is fetched, is not HALT and is defined. */
  lemma RunUnfold(s: State, fuel: nat)
    requires WellFormed(s) && CanFetch(s) && Fetch(s) != HALT && fuel > 0
    requires Defined(Advance(s), Decode(Fetch(s)))
    ensures Run(s, fuel) == Run(Step(s), fuel - 1)
  {
  }

  /** The ways one round of run_program's loop can end the run. */
  lemma RunStops(s: State, fuel: nat)
    requires WellFormed(s)
    ensures !CanFetch(s) ==> Run(s, fuel) == Outcome(Fault, s)
    ensures CanFetch(s) && Fetch(s) == HALT ==> Run(s, fuel) == Outcome(Halted, Advance(s))
    ensures CanFetch(s) && Fetch(s) != HALT && fuel == 0 ==> Run(s, fuel) == Outcome(OutOfFuel, s)
    ensures CanFetch(s) && Fetch(s) != HALT && fuel > 0 && !Defined(s, Decode(Fetch(s))) ==>
      Run(s, fuel) == Outcome(Fault, s)
  {
  }

  /** A run that stops on a fault stopped at a word it could not fetch or whose C code is undefined. */
  lemma {:induction false} RunFaults(s: State, fuel: nat)
    requires WellFormed(s)
    ensures var o := Run(s, fuel);
      o.status == Fault ==>
        !CanFetch(o.state) || (WellFormed(o.state) && !Defined(Advance(o.state), Decode(Fetch(o.state))))
    decreases fuel
  {
    if CanFetch(s) && Fetch(s) != HALT && fuel > 0 && Defined(Advance(s), Decode(Fetch(s))) {
      RunFaults(Step(s), fuel - 1);
    }
  }
}
