/**
 * The table-driven decoder of the pipelined emulator (ca-pa3/main.c, lines
 * 100-187). The opcode `instr >> 26` selects a format from
 * mips_instruction_set. The fields are then cut out of the word with shifts
 * and masks. R-format instructions take their name from r_type_instructions,
 * indexed by funct.
 *
 * Both tables are partial maps. An opcode with no entry takes the default
 * branch of the switch: the emulator prints a message and calls exit(-1), so
 * no decoded record is produced. Here that is None. A funct without an entry
 * leaves the name null, which is also None.
 */
module PipelineParse {
  import opened Words
  import opened Bitwise

  datatype Option<T> = None | Some(value: T)

  /** The three formats an entry of mips_instruction_set can name. */
  datatype Format = RFormat | IFormat | JFormat

  datatype TableEntry = TableEntry(name: string, format: Format)

  /**
   * The union inside `struct instruction`, together with its `type` tag.
   * A record that was never decoded (`{ 0 }`) has type unknown_type.
   */
  datatype Operands =
    | Unknown
    | ROperands(rs: u32, rt: u32, rd: u32, shamt: u32, funct: u32)
    | IOperands(rs: u32, rt: u32, imm: u32)
    | JOperands(target: u32)

  /** `struct instruction` (types.h); a null name is None. */
  datatype Instruction = Instruction(machineCode: u32, opcode: u32, name: Option<string>, operands: Operands)

  /** `(struct instruction){ 0 }`: the instruction a bubble carries. */
  const NOOP_INSTRUCTION: Instruction := Instruction(0, 0, None, Unknown)

  /** mips_instruction_set (lines 112-124). */
  const INSTRUCTION_SET: map<nat, TableEntry> := map[
    0x00 := TableEntry("r-type", RFormat),
    0x08 := TableEntry("addi", IFormat),
    0x0c := TableEntry("andi", IFormat),
    0x0d := TableEntry("ori", IFormat),
    0x23 := TableEntry("lw", IFormat),
    0x2b := TableEntry("sw", IFormat),
    0x04 := TableEntry("beq", IFormat),
    0x05 := TableEntry("bne", IFormat),
    0x0a := TableEntry("slti", IFormat),
    0x02 := TableEntry("j", JFormat),
    0x03 := TableEntry("jal", JFormat)
  ]

  /** The names in r_type_instructions (lines 126-137), by funct. */
  const R_TYPE_NAMES: map<nat, string> := map[
    0x20 := "add",
    0x22 := "sub",
    0x24 := "and",
    0x25 := "or",
    0x27 := "nor",
    0x00 := "sll",
    0x02 := "srl",
    0x03 := "sra",
    0x08 := "jr",
    0x2a := "slt"
  ]

  /** `(instr >> k) & 0x1f`: a register or shift-amount field. */
  function RegisterField(instr: u32, k: nat): u32
  {
    And(ShiftRight(instr, k), 0x1f)
  }

  function Lookup<T>(table: map<nat, T>, key: u32): Option<T>
  {
    if key as nat in table then Some(table[key as nat]) else None
  }

  /** __parse_instruction (lines 139-187); None where it calls exit(-1). */
  function Parse(instr: u32): Option<Instruction>
  {
    var opcode := ShiftRight(instr, 26);
    match Lookup(INSTRUCTION_SET, opcode)
    case None => None
    case Some(entry) =>
      match entry.format
      case RFormat =>
        var funct := And(instr, 0x3f);
        var operands := ROperands(
          RegisterField(instr, 21), RegisterField(instr, 16), RegisterField(instr, 11),
          RegisterField(instr, 6), funct);
        Some(Instruction(instr, opcode, Lookup(R_TYPE_NAMES, funct), operands))
      case IFormat =>
        var operands := IOperands(RegisterField(instr, 21), RegisterField(instr, 16), And(instr, 0xffff));
        Some(Instruction(instr, opcode, Some(entry.name), operands))
      case JFormat =>
        Some(Instruction(instr, opcode, Some(entry.name), JOperands(And(instr, 0x3ff_ffff))))
  }

  /** The format a decoded record carries in its `type` field. */
  function FormatOf(operands: Operands): Option<Format>
  {
    match operands
    case Unknown => None
    case ROperands(_, _, _, _, _) => Some(RFormat)
    case IOperands(_, _, _) => Some(IFormat)
    case JOperands(_) => Some(JFormat)
  }

  /** The MIPS32 encoding: the opcode in bits 31-26 and the fields below it. */
  function Encode(i: Instruction): int
  {
    var top := i.opcode as int * 0x400_0000;
    match i.operands
    case Unknown => top
    case ROperands(rs, rt, rd, shamt, funct) =>
      top + rs as int * 0x20_0000 + rt as int * 0x1_0000 + rd as int * 0x800 + shamt as int * 0x40 + funct as int
    case IOperands(rs, rt, imm) => top + rs as int * 0x20_0000 + rt as int * 0x1_0000 + imm as int
    case JOperands(target) => top + target as int
  }

  // ---------------------------------------------------------------------
  // Properties of the decoder
  // ---------------------------------------------------------------------

  /** `(w >> k) & mask`, for a mask of n low ones, is bits k..k+n-1 of w. */
  lemma ShiftMaskValue(w: u32, k: nat, n: nat, mask: u32)
    requires n <= 32 && mask as int == Pow2(n) - 1
    ensures And(ShiftRight(w, k), mask) as int == w as int / Pow2(k) % Pow2(n)
  {
    Pow2Word();
    ShiftRightValue(w, k);
    AndLowMask(ShiftRight(w, k) as nat, n, 32);
  }

  /** `instr >> 26` (line 141) is the top six bits. */
  lemma OpcodeValue(instr: u32)
    ensures ShiftRight(instr, 26) as int == instr as int / 0x400_0000
  {
    Pow2Positions();
    ShiftRightValue(instr, 26);
  }

  /** The masks of lines 149-153 select the R-format fields. */
  lemma RFieldValues(instr: u32)
    ensures RegisterField(instr, 21) as int == instr as int / 0x20_0000 % 0x20
    ensures RegisterField(instr, 16) as int == instr as int / 0x1_0000 % 0x20
    ensures RegisterField(instr, 11) as int == instr as int / 0x800 % 0x20
    ensures RegisterField(instr, 6) as int == instr as int / 0x40 % 0x20
    ensures And(instr, 0x3f) as int == instr as int % 0x40
  {
    Pow2Positions();
    ShiftMaskValue(instr, 21, 5, 0x1f);
    ShiftMaskValue(instr, 16, 5, 0x1f);
    ShiftMaskValue(instr, 11, 5, 0x1f);
    ShiftMaskValue(instr, 6, 5, 0x1f);
    ShiftMaskValue(instr, 0, 6, 0x3f);
  }

  /** The masks of lines 162-164 select the I-format fields. */
  lemma IFieldValues(instr: u32)
    ensures RegisterField(instr, 21) as int == instr as int / 0x20_0000 % 0x20
    ensures RegisterField(instr, 16) as int == instr as int / 0x1_0000 % 0x20
    ensures And(instr, 0xffff) as int == instr as int % 0x1_0000
  {
    Pow2Positions();
    ShiftMaskValue(instr, 21, 5, 0x1f);
    ShiftMaskValue(instr, 16, 5, 0x1f);
    ShiftMaskValue(instr, 0, 16, 0xffff);
  }

  /** The mask of line 172 selects the jump target. */
  lemma JFieldValue(instr: u32)
    ensures And(instr, 0x3ff_ffff) as int == instr as int % 0x400_0000
  {
    Pow2Positions();
    ShiftMaskValue(instr, 0, 26, 0x3ff_ffff);
  }

  /** A word is its opcode and the five R-format fields put back together. */
  lemma RDigits(w: nat)
    ensures w == w / 0x400_0000 * 0x400_0000 + w / 0x20_0000 % 0x20 * 0x20_0000 + w / 0x1_0000 % 0x20 * 0x1_0000
      + w / 0x800 % 0x20 * 0x800 + w / 0x40 % 0x20 * 0x40 + w % 0x40
  {
    var a6, a11, a16, a21, a26 := w / 0x40, w / 0x800, w / 0x1_0000, w / 0x20_0000, w / 0x400_0000;
    DivDiv(w, 0x40, 0x20);
    DivDiv(w, 0x800, 0x20);
    DivDiv(w, 0x1_0000, 0x20);
    DivDiv(w, 0x20_0000, 0x20);
    assert a6 == a11 * 0x20 + a6 % 0x20;
    assert a11 == a16 * 0x20 + a11 % 0x20;
    assert a16 == a21 * 0x20 + a16 % 0x20;
    assert a21 == a26 * 0x20 + a21 % 0x20;
  }

  /** A word is its opcode, rs, rt and 16-bit immediate put back together. */
  lemma IDigits(w: nat)
    ensures w == w / 0x400_0000 * 0x400_0000 + w / 0x20_0000 % 0x20 * 0x20_0000 + w / 0x1_0000 % 0x20 * 0x1_0000
      + w % 0x1_0000
  {
    var a16, a21, a26 := w / 0x1_0000, w / 0x20_0000, w / 0x400_0000;
    DivDiv(w, 0x1_0000, 0x20);
    DivDiv(w, 0x20_0000, 0x20);
    assert a16 == a21 * 0x20 + a16 % 0x20;
    assert a21 == a26 * 0x20 + a21 % 0x20;
  }

  /**
   * Decoding loses nothing: the record keeps the word as machine_code, its
   * opcode is `instr >> 26`, and the fields of the chosen format reassemble
   * to the word.
   */
  lemma ParseRoundTrip(instr: u32)
    requires Parse(instr).Some?
    ensures Parse(instr).value.machineCode == instr
    ensures Parse(instr).value.opcode as int == instr as int / 0x400_0000
    ensures Encode(Parse(instr).value) == instr as int
  {
    OpcodeValue(instr);
    var i := Parse(instr).value;
    if i.operands.ROperands? {
      RRoundTrip(instr, i);
    } else if i.operands.IOperands? {
      IRoundTrip(instr, i);
    } else {
      JFieldValue(instr);
      var w := instr as int;
      assert w == w / 0x400_0000 * 0x400_0000 + w % 0x400_0000;
    }
  }

  lemma RRoundTrip(instr: u32, i: Instruction)
    requires i.operands.ROperands? && i.opcode as int == instr as int / 0x400_0000
    requires i.operands.rs == RegisterField(instr, 21) && i.operands.rt == RegisterField(instr, 16)
    requires i.operands.rd == RegisterField(instr, 11) && i.operands.shamt == RegisterField(instr, 6)
    requires i.operands.funct == And(instr, 0x3f)
    ensures Encode(i) == instr as int
  {
    RFieldValues(instr);
    RDigits(instr as int);
  }

  lemma IRoundTrip(instr: u32, i: Instruction)
    requires i.operands.IOperands? && i.opcode as int == instr as int / 0x400_0000
    requires i.operands.rs == RegisterField(instr, 21) && i.operands.rt == RegisterField(instr, 16)
    requires i.operands.imm == And(instr, 0xffff)
    ensures Encode(i) == instr as int
  {
    IFieldValues(instr);
    IDigits(instr as int);
  }

  /**
   * Every decoded field fits its width: the opcode in 6 bits, registers and
   * shift amounts in 5, funct in 6, the immediate in 16, the target in 26.
   */
  lemma ParseFieldsBounded(instr: u32)
    requires Parse(instr).Some?
    ensures Parse(instr).value.opcode < 64
    ensures match Parse(instr).value.operands
      case Unknown => false
      case ROperands(rs, rt, rd, shamt, funct) => rs < 32 && rt < 32 && rd < 32 && shamt < 32 && funct < 64
      case IOperands(rs, rt, imm) => rs < 32 && rt < 32 && imm < 0x1_0000
      case JOperands(target) => target < 0x400_0000
  {
    OpcodeValue(instr);
    match Parse(instr).value.operands
    case ROperands(_, _, _, _, _) => RFieldValues(instr);
    case IOperands(_, _, _) => IFieldValues(instr);
    case JOperands(_) => JFieldValue(instr);
  }

  /**
   * The table alone decides: the word decodes exactly when its opcode has an
   * entry, the record's format is that entry's, and its name is the entry's
   * name, or for the R format the name r_type_instructions gives funct.
   */
  lemma ParseFollowsTable(instr: u32)
    ensures var opcode := instr as int / 0x400_0000;
      && (Parse(instr).Some? <==> opcode in INSTRUCTION_SET)
      && (Parse(instr).Some? ==>
        && FormatOf(Parse(instr).value.operands) == Some(INSTRUCTION_SET[opcode].format)
        && Parse(instr).value.name ==
          if INSTRUCTION_SET[opcode].format == RFormat then Lookup(R_TYPE_NAMES, And(instr, 0x3f))
          else Some(INSTRUCTION_SET[opcode].name))
  {
    OpcodeValue(instr);
  }

  /** The halt word 0xffffffff has opcode 0x3f, which has no entry: decoding it aborts. */
  lemma HaltWordAborts()
    ensures Parse(0xFFFF_FFFF).None?
  {
    var halt: u32 := 0xFFFF_FFFF;
    OpcodeValue(halt);
    assert halt as int / 0x400_0000 == 0x3f;
  }
}
