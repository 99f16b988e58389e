/**
 * Instruction decoding of the single-cycle emulator (ca-pa2/pa2.c,
 * process_instruction, lines 152-212). The source does not mask and shift:
 * it writes the 32-bit word out as a string of '0'/'1' characters, most
 * significant bit first, copies fixed character ranges of that string into
 * field buffers and reads each one back with strtol(.., 2). This module models
 * exactly that route and proves that it lands every field on the bit
 * positions of the MIPS32 R/I/J encodings.
 */
module SingleCycleDecode {
  import opened Words

  /** A 5-bit field: a register number or a shift amount. */
  type Reg = x: nat | x < 32

  /** A 6-bit field: the opcode or the function code. */
  type Code = x: nat | x < 64

  type Imm16 = x: nat | x < 0x1_0000

  type Target = x: nat | x < 0x400_0000

  /** Format-specific fields, as the source fills its field buffers. */
  datatype Fields =
    | RFields(rs: Reg, rt: Reg, rd: Reg, shamt: Reg, funct: Code)
    | JFields(target: Target)
    | IFields(rs: Reg, rt: Reg, imm: Imm16)

  datatype Decoded = Decoded(opcode: Code, fields: Fields)

  /**
   * The characters that n rounds of the loop at lines 152-156 append: each
   * round tests the top bit (`instr & bitmask` with bitmask = 1 << 31) and
   * shifts the word left by one.
   */
  function BinaryDigits(w: u32, n: nat): (s: seq<char>)
    ensures |s| == n
    decreases n
  {
    if n == 0 then []
    else [if w >= 0x8000_0000 then '1' else '0'] + BinaryDigits(Double(w), n - 1)
  }

  predicate IsBinary(s: seq<char>)
  {
    forall i :: 0 <= i < |s| ==> s[i] == '0' || s[i] == '1'
  }

  function Digit(c: char): nat
  {
    if c == '1' then 1 else 0
  }

  /** strtol(s, NULL, 2) on a string of binary digits. */
  function ParseBinary(s: seq<char>): nat
  {
    if s == [] then 0 else 2 * ParseBinary(s[..|s| - 1]) + Digit(s[|s| - 1])
  }

  lemma {:induction false} ParseBinaryBound(s: seq<char>)
    ensures ParseBinary(s) < Pow2(|s|)
  {
    if s != [] {
      ParseBinaryBound(s[..|s| - 1]);
    }
  }

  /** strtol on the characters lo..hi-1, the contents of one field buffer. */
  function Field(binary: seq<char>, lo: nat, hi: nat): (r: nat)
    requires lo <= hi <= |binary|
    ensures r < Pow2(hi - lo)
  {
    ParseBinaryBound(binary[lo..hi]);
    ParseBinary(binary[lo..hi])
  }

  /** The loop at lines 152-156: the 32-character binary text of instr. */
  method ToBinary(instr: u32) returns (binary: seq<char>)
    ensures binary == BinaryDigits(instr, 32)
    ensures |binary| == 32
  {
    binary := [];
    var w := instr;
    for i := 0 to 32
      invariant |binary| == i
      invariant binary + BinaryDigits(w, 32 - i) == BinaryDigits(instr, 32)
    {
      // instr & bitmask, with bitmask = 1 << 31, tests the top bit
      var digit := if w >= 0x8000_0000 then '1' else '0';
      ghost var rest := BinaryDigits(Double(w), 31 - i);
      assert BinaryDigits(w, 32 - i) == [digit] + rest;
      assert binary + ([digit] + rest) == (binary + [digit]) + rest;
      binary := binary + [digit];
      w := Double(w);
    }
  }

  /**
   * The field buffers of lines 157-199 read back with strtol. The opcode
   * buffer alone chooses the format: "000000" is R-format, "000010" and
   * "000011" are J-format, every other opcode is read as I-format.
   */
  function DecodeBinary(binary: seq<char>): Decoded
    requires |binary| == 32
  {
    Pow2Fields();
    var opcode := binary[0..6];
    if opcode == "000000" then
      Decoded(Field(binary, 0, 6),
              RFields(Field(binary, 6, 11), Field(binary, 11, 16), Field(binary, 16, 21),
                      Field(binary, 21, 26), Field(binary, 26, 32)))
    else if opcode == "000010" || opcode == "000011" then
      Decoded(Field(binary, 0, 6), JFields(Field(binary, 6, 32)))
    else
      Decoded(Field(binary, 0, 6),
              IFields(Field(binary, 6, 11), Field(binary, 11, 16), Field(binary, 16, 32)))
  }

  /**
   * The MIPS32 R/I/J layout: the opcode is bits 31-26; R-format has rs, rt,
   * rd, shamt and funct in bits 25-21, 20-16, 15-11, 10-6 and 5-0; opcodes 2
   * and 3 take a 26-bit target from bits 25-0; every other opcode has rs, rt
   * and a 16-bit immediate in bits 15-0.
   */
  function Decode(instr: u32): Decoded
  {
    var w := instr as int;
    var opcode := w / 0x400_0000;
    var rs, rt := w / 0x20_0000 % 0x20, w / 0x1_0000 % 0x20;
    if opcode == 0 then
      Decoded(opcode, RFields(rs, rt, w / 0x800 % 0x20, w / 0x40 % 0x20, w % 0x40))
    else if opcode == 2 || opcode == 3 then
      Decoded(opcode, JFields(w % 0x400_0000))
    else
      Decoded(opcode, IFields(rs, rt, w % 0x1_0000))
  }

  /**
   * Lines 152-199: the word written out in binary, the field buffers copied
   * out of the text and read back with strtol. The fields land where Decode
   * puts them.
   */
  method DecodeInstruction(instr: u32) returns (d: Decoded)
    ensures d == Decode(instr)
  {
    var binary := ToBinary(instr);
    d := DecodeBinary(binary);
    BinaryDecodeIsDecode(instr);
  }

  /** The positions of the fields every format shares, stated with Bits. */
  lemma DecodeCommonFields(instr: u32)
    ensures Bits(instr, 31, 26) == instr as int / 0x400_0000
    ensures Bits(instr, 25, 21) == instr as int / 0x20_0000 % 0x20
    ensures Bits(instr, 20, 16) == instr as int / 0x1_0000 % 0x20
  {
    Pow2Positions();
    BitsValue(instr, 31, 26);
    BitsValue(instr, 25, 21);
    BitsValue(instr, 20, 16);
  }

  /** The positions of the R-format-only fields, the jump target and the immediate, stated with Bits. */
  lemma DecodeOtherFields(instr: u32)
    ensures Bits(instr, 15, 11) == instr as int / 0x800 % 0x20
    ensures Bits(instr, 10, 6) == instr as int / 0x40 % 0x20
    ensures Bits(instr, 5, 0) == instr as int % 0x40
    ensures Bits(instr, 25, 0) == instr as int % 0x400_0000
    ensures Bits(instr, 15, 0) == instr as int % 0x1_0000
  {
    Pow2Positions();
    BitsValue(instr, 15, 11);
    BitsValue(instr, 10, 6);
    BitsValue(instr, 5, 0);
    BitsValue(instr, 25, 0);
    BitsValue(instr, 15, 0);
  }

  /**
   * The source's route through the binary text lands every field on its
   * MIPS32 bit position: the buffers of lines 157-199, read back with
   * strtol, decode the word exactly as Decode does.
   */
  lemma BinaryDecodeIsDecode(instr: u32)
    ensures DecodeBinary(BinaryDigits(instr, 32)) == Decode(instr)
  {
    DecodeCommonFields(instr);
    DecodeOtherFields(instr);
    DecodeOpcode(instr);
    DecodeRFields(instr);
    DecodeJFields(instr);
    DecodeIFields(instr);
  }

  lemma {:induction false} DigitsAreBinary(w: u32, n: nat)
    ensures IsBinary(BinaryDigits(w, n))
    decreases n
  {
    if n > 0 {
      DigitsAreBinary(Double(w), n - 1);
    }
  }

  /** strtol reads a leading digit as worth 2^(number of digits after it). */
  lemma {:induction false} ParseCons(c: char, s: seq<char>)
    ensures ParseBinary([c] + s) == Digit(c) * Pow2(|s|) + ParseBinary(s)
    decreases |s|
  {
    var t := [c] + s;
    if s == [] {
      assert t[..|t| - 1] == [];
    } else {
      var s' := s[..|s| - 1];
      assert t[..|t| - 1] == [c] + s';
      ParseCons(c, s');
      assert Digit(c) * Pow2(|s|) == 2 * (Digit(c) * Pow2(|s'|));
    }
  }

  /** n rounds of the loop write the top n bits of w: strtol reads them back as w >> (32 - n). */
  lemma {:induction false} ParseTopDigits(w: u32, n: nat)
    requires n <= 32
    ensures ParseBinary(BinaryDigits(w, n)) == w as int / Pow2(32 - n)
    decreases n
  {
    if n == 0 {
      Pow2Word();
      DivModUnique(w as int, Pow2(32), 0, w as int);
    } else {
      var top := if w >= 0x8000_0000 then 1 else 0;
      var c := if w >= 0x8000_0000 then '1' else '0';
      assert BinaryDigits(w, n) == [c] + BinaryDigits(Double(w), n - 1);
      ParseCons(c, BinaryDigits(Double(w), n - 1));
      ParseTopDigits(Double(w), n - 1);
      var p, q := Pow2(32 - n), Pow2(n - 1);
      var r := w as int - top * 0x8000_0000;
      Pow2Split(n);
      assert Digit(c) * Pow2(n - 1) == top * q;
      assert Double(w) as int / Pow2(33 - n) == (2 * r) / (p * 2);
      TopSplit(w as int, top, r, p, q);
    }
  }

  /** Skipping k characters of the binary text is the same as shifting the word left by k first. */
  lemma {:induction false} DropDigits(w: u32, n: nat, k: nat)
    requires k <= n
    ensures BinaryDigits(w, n)[k..] == BinaryDigits(ShiftLeft(w, k), n - k)
    decreases k
  {
    if k == 0 {
      assert ShiftLeft(w, 0) == w;
    } else {
      var s := BinaryDigits(w, n);
      assert s[1..] == BinaryDigits(Double(w), n - 1);
      assert s[k..] == s[1..][k - 1..];
      DropDigits(Double(w), n - 1, k - 1);
    }
  }

  lemma {:induction false} TakeDigits(w: u32, n: nat, m: nat)
    requires m <= n
    ensures BinaryDigits(w, n)[..m] == BinaryDigits(w, m)
    decreases m
  {
    if m > 0 {
      TakeDigits(Double(w), n - 1, m - 1);
    }
  }

  /** Characters lo..hi-1 of the text are the first hi - lo characters of the text of w << lo. */
  lemma SliceOfDigits(w: u32, lo: nat, hi: nat)
    requires lo <= hi <= 32
    ensures BinaryDigits(w, 32)[lo..hi] == BinaryDigits(ShiftLeft(w, lo), hi - lo)
  {
    DropDigits(w, 32, lo);
    TakeDigits(ShiftLeft(w, lo), 32 - lo, hi - lo);
    assert BinaryDigits(w, 32)[lo..hi] == BinaryDigits(w, 32)[lo..][..hi - lo];
  }

  /** Shifting left by k keeps the low 32 - k bits, moved up by k. */
  lemma ShiftLeftKeepsLow(w: u32, k: nat)
    requires k <= 32
    ensures ShiftLeft(w, k) as int == (w as int % Pow2(32 - k)) * Pow2(k)
  {
    ShiftLeftValue(w, k);
    Pow2Add(32 - k, k);
    Pow2Word();
    MulMod(w as int, Pow2(32 - k), Pow2(k));
  }

  /**
   * strtol on characters lo..hi-1 of the binary text yields bits (31 - lo)
   * down to (32 - hi) of the word: the field buffers hold the MIPS32 fields.
   */
  lemma FieldOfDigits(w: u32, lo: nat, hi: nat)
    requires lo < hi <= 32
    ensures ParseBinary(BinaryDigits(w, 32)[lo..hi]) == Bits(w, 31 - lo, 32 - hi)
  {
    var e, l := 32 - hi, hi - lo;
    SliceOfDigits(w, lo, hi);
    ParseTopDigits(ShiftLeft(w, lo), l);
    ShiftLeftKeepsLow(w, lo);
    // the parsed value is (w mod 2^(e + l)) >> e
    Pow2Add(e, lo);
    assert 32 - l == e + lo;
    MulDivCancel(w as int % Pow2(e + l), Pow2(e), Pow2(lo));
    LowBitsField(w as int, e, l);
    BitsValue(w, 31 - lo, 32 - hi);
  }

  lemma DigitAt(w: u32, i: nat)
    requires i < 32
    ensures BinaryDigits(w, 32)[i] == '1' <==> Bits(w, 31 - i, 31 - i) == 1
  {
    var s := BinaryDigits(w, 32);
    FieldOfDigits(w, i, i + 1);
    assert s[i..i + 1] == [s[i]];
    assert ParseBinary([s[i]]) == Digit(s[i]) by {
      assert [s[i]][..0] == [];
    }
  }

  /** Character i of the text is '1' exactly when bit 31 - i of the word is set. */
  lemma DigitsAreBits(w: u32)
    ensures forall i :: 0 <= i < 32 ==> (BinaryDigits(w, 32)[i] == '1' <==> Bits(w, 31 - i, 31 - i) == 1)
  {
    forall i | 0 <= i < 32
      ensures BinaryDigits(w, 32)[i] == '1' <==> Bits(w, 31 - i, 31 - i) == 1
    {
      DigitAt(w, i);
    }
  }

  /** Two binary texts of the same length that strtol reads as the same number are the same text. */
  lemma {:induction false} BinaryInjective(s: seq<char>, t: seq<char>)
    requires IsBinary(s) && IsBinary(t) && |s| == |t|
    requires ParseBinary(s) == ParseBinary(t)
    ensures s == t
    decreases |s|
  {
    if s != [] {
      var s', t' := s[..|s| - 1], t[..|t| - 1];
      assert Digit(s[|s| - 1]) == Digit(t[|t| - 1]);
      BinaryInjective(s', t');
      assert s == s' + [s[|s| - 1]] && t == t' + [t[|t| - 1]];
    }
  }

  /** The opcode string equals one of the source's literals exactly when the opcode has that value. */
  lemma OpcodeText(w: u32, literal: string, value: nat)
    requires |literal| == 6 && IsBinary(literal) && ParseBinary(literal) == value
    ensures BinaryDigits(w, 32)[0..6] == literal <==> Bits(w, 31, 26) == value
  {
    var s := BinaryDigits(w, 32);
    DigitsAreBinary(w, 32);
    FieldOfDigits(w, 0, 6);
    assert IsBinary(s[0..6]);
    if Bits(w, 31, 26) == value {
      BinaryInjective(s[0..6], literal);
    }
  }

  lemma OpcodeLiterals()
    ensures IsBinary("000000") && ParseBinary("000000") == 0
    ensures IsBinary("000010") && ParseBinary("000010") == 2
    ensures IsBinary("000011") && ParseBinary("000011") == 3
  {
    assert "000000"[..5] == "00000" && "00000"[..4] == "0000" && "0000"[..3] == "000";
    assert "000"[..2] == "00" && "00"[..1] == "0" && "0"[..0] == [];
    assert "000010"[..5] == "00001" && "00001"[..4] == "0000";
    assert "000011"[..5] == "00001";
  }

  /** The format test on the opcode buffer is a test on the opcode value. */
  lemma FormatByOpcode(instr: u32)
    ensures var s := BinaryDigits(instr, 32);
      && (s[0..6] == "000000" <==> Bits(instr, 31, 26) == 0)
      && (s[0..6] == "000010" <==> Bits(instr, 31, 26) == 2)
      && (s[0..6] == "000011" <==> Bits(instr, 31, 26) == 3)
  {
    OpcodeLiterals();
    OpcodeText(instr, "000000", 0);
    OpcodeText(instr, "000010", 2);
    OpcodeText(instr, "000011", 3);
  }

  lemma OpcodeBuffer(s: seq<char>)
    requires |s| == 32
    ensures DecodeBinary(s).opcode == ParseBinary(s[0..6])
  {
  }

  lemma RBuffers(s: seq<char>)
    requires |s| == 32 && s[0..6] == "000000"
    ensures var f := DecodeBinary(s).fields;
      && f.RFields?
      && f.rs == ParseBinary(s[6..11]) && f.rt == ParseBinary(s[11..16])
      && f.rd == ParseBinary(s[16..21]) && f.shamt == ParseBinary(s[21..26])
      && f.funct == ParseBinary(s[26..32])
  {
  }

  lemma JBuffers(s: seq<char>)
    requires |s| == 32 && (s[0..6] == "000010" || s[0..6] == "000011")
    ensures var f := DecodeBinary(s).fields;
      f.JFields? && f.target == ParseBinary(s[6..32])
  {
  }

  lemma IBuffers(s: seq<char>)
    requires |s| == 32 && s[0..6] != "000000" && s[0..6] != "000010" && s[0..6] != "000011"
    ensures var f := DecodeBinary(s).fields;
      && f.IFields?
      && f.rs == ParseBinary(s[6..11]) && f.rt == ParseBinary(s[11..16])
      && f.imm == ParseBinary(s[16..32])
  {
  }

  lemma DecodeRFields(instr: u32)
    ensures var f := DecodeBinary(BinaryDigits(instr, 32)).fields;
      Bits(instr, 31, 26) == 0 ==>
        && f.RFields?
        && f.rs == Bits(instr, 25, 21) && f.rt == Bits(instr, 20, 16)
        && f.rd == Bits(instr, 15, 11) && f.shamt == Bits(instr, 10, 6)
        && f.funct == Bits(instr, 5, 0)
  {
    if Bits(instr, 31, 26) != 0 {
      return;
    }
    FormatByOpcode(instr);
    RBuffers(BinaryDigits(instr, 32));
    FieldOfDigits(instr, 6, 11);
    FieldOfDigits(instr, 11, 16);
    FieldOfDigits(instr, 16, 21);
    FieldOfDigits(instr, 21, 26);
    FieldOfDigits(instr, 26, 32);
  }

  lemma DecodeJFields(instr: u32)
    ensures var f := DecodeBinary(BinaryDigits(instr, 32)).fields;
      Bits(instr, 31, 26) == 2 || Bits(instr, 31, 26) == 3 ==> f.JFields? && f.target == Bits(instr, 25, 0)
  {
    if Bits(instr, 31, 26) != 2 && Bits(instr, 31, 26) != 3 {
      return;
    }
    FormatByOpcode(instr);
    JBuffers(BinaryDigits(instr, 32));
    FieldOfDigits(instr, 6, 32);
  }

  lemma DecodeIFields(instr: u32)
    ensures var f := DecodeBinary(BinaryDigits(instr, 32)).fields;
      Bits(instr, 31, 26) != 0 && Bits(instr, 31, 26) != 2 && Bits(instr, 31, 26) != 3 ==>
        && f.IFields?
        && f.rs == Bits(instr, 25, 21) && f.rt == Bits(instr, 20, 16)
        && f.imm == Bits(instr, 15, 0)
  {
    if Bits(instr, 31, 26) in {0, 2, 3} {
      return;
    }
    FormatByOpcode(instr);
    IBuffers(BinaryDigits(instr, 32));
    FieldOfDigits(instr, 6, 11);
    FieldOfDigits(instr, 11, 16);
    FieldOfDigits(instr, 16, 32);
  }

  lemma DecodeOpcode(instr: u32)
    ensures DecodeBinary(BinaryDigits(instr, 32)).opcode == Bits(instr, 31, 26)
  {
    OpcodeBuffer(BinaryDigits(instr, 32));
    FieldOfDigits(instr, 0, 6);
  }

  // ---------------------------------------------------------------------
  // The immediate as hexadecimal text (lines 202-211)
  // ---------------------------------------------------------------------

  /** One hex digit as lines 204-208 write it: '0'..'9', then 'A'..'F'. */
  function HexDigit(v: nat): char
    requires v < 16
  {
    if v <= 9 then ('0' as int + v) as char else ('A' as int + (v - 10)) as char
  }

  /** The value strtol(.., 16) gives one digit character. */
  function HexValue(c: char): nat
  {
    if '0' <= c <= '9' then c as int - '0' as int
    else if 'A' <= c <= 'F' then c as int - 'A' as int + 10
    else if 'a' <= c <= 'f' then c as int - 'a' as int + 10
    else 0
  }

  /** strtol(s, NULL, 16) on a string of hex digits. */
  function ParseHex(s: seq<char>): nat
  {
    if s == [] then 0 else 16 * ParseHex(s[..|s| - 1]) + HexValue(s[|s| - 1])
  }

  lemma HexDigitValue(v: nat)
    requires v < 16
    ensures HexValue(HexDigit(v)) == v
  {
  }

  /** 16^(4 - i): the place value of the hex digits not yet written after round i. */
  const HEX_PLACES: seq<nat> := [0x1_0000, 0x1000, 0x100, 0x10, 1]

  lemma HexPlace(i: nat)
    requires i < 4
    ensures HEX_PLACES[i + 1] == Pow2(12 - 4 * i)
  {
    assert Pow2(4) == 0x10;
    assert Pow2(8) == 0x100;
    assert Pow2(12) == 0x1000;
  }

  /** One round of the hex loop: appending the next nibble's digit brings in one more place. */
  lemma HexStep(imm: Imm16, hex: seq<char>, i: nat)
    requires i < 4 && ParseHex(hex) == imm / HEX_PLACES[i]
    ensures ParseHex(hex + [HexDigit((imm / HEX_PLACES[i + 1]) % 0x10)]) == imm / HEX_PLACES[i + 1]
  {
    var nibble := (imm / HEX_PLACES[i + 1]) % 0x10;
    var next := hex + [HexDigit(nibble)];
    assert next[..|next| - 1] == hex;
    HexDigitValue(nibble);
    assert HEX_PLACES[i] == HEX_PLACES[i + 1] * 0x10;
    DivSplit(imm, HEX_PLACES[i + 1], 0x10);
  }

  /**
   * The loop at lines 202-209 writes immed_num as four hex digits, the most
   * significant nibble `(immed_num >> (12 - 4 * i)) & 0xF` first; strtol at
   * line 211 reads them back to the same 16-bit value.
   */
  method ToHex(imm: Imm16) returns (hex: seq<char>)
    ensures |hex| == 4 && ParseHex(hex) == imm
  {
    hex := [];
    for i := 0 to 4
      invariant |hex| == i
      invariant ParseHex(hex) == imm / HEX_PLACES[i]
    {
      var nibble := ShiftRight(imm as u32, 12 - 4 * i) as int % 0x10;
      ShiftRightValue(imm as u32, 12 - 4 * i);
      HexPlace(i);
      HexStep(imm, hex, i);
      hex := hex + [HexDigit(nibble)];
    }
  }
}
