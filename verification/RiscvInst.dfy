/** The instruction record of `testbench/riscv_inst.h`: decoding a word into the record and
    encoding the record into a word. */
module RiscvInst {

  import opened InstWord
  import opened InstTable

  // ---- recognising a word ------------------------------------------------------------------------

  /** The value of a field, as the switches compare it. */
  function Value(w: Word): int { w as int }

  /** The operation that `decode` finds in a word. */
  function OpOf(w: Word): Op {
    OpFrom(Value(Opcode(w)), Value(Funct3(w)), Value(Funct7(w)), Value(Funct12(w)))
  }

  /** The word has all the fixed fields of `op`. */
  predicate Matches(op: Op, w: Word) {
    HasFields(op, Value(Opcode(w)), Value(Funct3(w)), Value(Funct7(w)), Value(Funct12(w)))
  }

  lemma Funct3Range(w: Word)
    ensures 0 <= Value(Funct3(w)) <= 7
  {
  }

  lemma NoInvalidFields(op: Op, opcode: int, funct3: int, funct7: int, funct12: int)
    requires HasFields(op, opcode, funct3, funct7, funct12)
    ensures op != INVALID
  {
  }

  /** `decode` inverts the table of `select`: it finds an operation exactly in the words that
      have the fixed fields of that operation, and `INVALID` in all other words. */
  lemma DecodeInvertsSelect(w: Word)
    ensures forall op: Op :: op != INVALID ==> (OpOf(w) == op <==> Matches(op, w))
    ensures OpOf(w) == INVALID <==> forall op: Op :: !Matches(op, w)
  {
    hide Value, Opcode, Funct3, Funct7, Funct12, OpFrom, HasFields;
    Funct3Range(w);
    var opcode, funct3, funct7, funct12 := Value(Opcode(w)), Value(Funct3(w)), Value(Funct7(w)), Value(Funct12(w));
    if OpOf(w) != INVALID {
      OpHasFields(opcode, funct3, funct7, funct12);
      assert Matches(OpOf(w), w);
    }
    forall op: Op | Matches(op, w) ensures OpOf(w) == op != INVALID {
      FieldsAreOp(op, opcode, funct3, funct7, funct12);
      NoInvalidFields(op, opcode, funct3, funct7, funct12);
    }
  }

  lemma KnownWord(w: Word)
    requires OpOf(w) != INVALID
    ensures KnownCode(Value(Opcode(w)))
    ensures IsShift(OpOf(w)) <==> Value(Opcode(w)) == 0x13 && (Value(Funct3(w)) == 1 || Value(Funct3(w)) == 5)
  {
    hide Value, Opcode, Funct3, Funct7, Funct12, OpFrom, IsShift;
    KnownOpcode(Value(Opcode(w)), Value(Funct3(w)), Value(Funct7(w)), Value(Funct12(w)));
    ShiftOps(Value(Opcode(w)), Value(Funct3(w)), Value(Funct7(w)), Value(Funct12(w)));
  }

  /** The immediate that a word holds for each type. */
  function ImmValue(kind: ImmType, w: Word): Word
    requires kind != Rimm
  {
    match kind
    case Iimm =>
      if Value(Opcode(w)) == 0x13 && (Value(Funct3(w)) == 1 || Value(Funct3(w)) == 5) then Rs2(w) else SignextIimm(w)
    case Simm => SignextSimm(w)
    case Bimm => SignextBimm(w)
    case Uimm => Upper(w)
    case Jimm => SignextJimm(w)
  }

  /** A known opcode sets the types, also when no operation is found; others leave them alone. */
  predicate TypesSet(opcode: Word, riscv: RiscvType, imm: ImmType, oldRiscv: RiscvType, oldImm: ImmType) {
    if KnownCode(Value(opcode)) then HasTypes(Value(opcode), riscv, imm) else riscv == oldRiscv && imm == oldImm
  }

  lemma TypesOfOp(w: Word, riscv: RiscvType, imm: ImmType, oldRiscv: RiscvType, oldImm: ImmType)
    requires OpOf(w) != INVALID && TypesSet(Opcode(w), riscv, imm, oldRiscv, oldImm)
    ensures HasTypes(Value(Opcode(w)), riscv, imm)
  {
    hide OpFrom, HasTypes, KnownCode, Opcode, Funct3, Funct7, Funct12, Value;
    KnownOpcode(Value(Opcode(w)), Value(Funct3(w)), Value(Funct7(w)), Value(Funct12(w)));
  }

  lemma RegisterWord(w: Word)
    requires w == 0x4031_00B3
    ensures OpOf(w) == SUB && Rd(w) == 1 && Rs1(w) == 2 && Rs2(w) == 3
  {
  }

  lemma ImmediateWord(w: Word)
    requires w == 0xFFE1_0093
    ensures OpOf(w) == ADDI && Rd(w) == 1 && Rs1(w) == 2 && ImmValue(Iimm, w) == 0xFFFF_FFFE
  {
  }

  lemma StoreWord(w: Word)
    requires w == 0x0431_2223
    ensures OpOf(w) == SW && Rs1(w) == 2 && Rs2(w) == 3 && ImmValue(Simm, w) == 0x44
  {
  }

  lemma BranchWord(w: Word)
    requires w == 0xFE20_8CE3
    ensures OpOf(w) == BEQ && Rs1(w) == 1 && Rs2(w) == 2 && ImmValue(Bimm, w) == 0xFFFF_FFF8
  {
  }

  lemma UpperWord(w: Word)
    requires w == 0x1234_50B7
    ensures OpOf(w) == LUI && Rd(w) == 1 && ImmValue(Uimm, w) == 0x1_2345
  {
  }

  lemma JumpWord(w: Word)
    requires w == 0x0020_10EF
    ensures OpOf(w) == JAL && Rd(w) == 1 && ImmValue(Jimm, w) == 0x1002
  {
  }

  /** One word of every format, as RV32I assigns the fields. */
  lemma KnownWords()
    ensures var w := 0x4031_00B3; OpOf(w) == SUB && Rd(w) == 1 && Rs1(w) == 2 && Rs2(w) == 3
    ensures var w := 0xFFE1_0093; OpOf(w) == ADDI && Rd(w) == 1 && Rs1(w) == 2 && ImmValue(Iimm, w) == 0xFFFF_FFFE
    ensures var w := 0x0431_2223; OpOf(w) == SW && Rs1(w) == 2 && Rs2(w) == 3 && ImmValue(Simm, w) == 0x44
    ensures var w := 0xFE20_8CE3; OpOf(w) == BEQ && Rs1(w) == 1 && Rs2(w) == 2 && ImmValue(Bimm, w) == 0xFFFF_FFF8
    ensures var w := 0x1234_50B7; OpOf(w) == LUI && Rd(w) == 1 && ImmValue(Uimm, w) == 0x1_2345
    ensures var w := 0x0020_10EF; OpOf(w) == JAL && Rd(w) == 1 && ImmValue(Jimm, w) == 0x1002
  {
    hide OpOf, Rd, Rs1, Rs2, ImmValue;
    RegisterWord(0x4031_00B3);
    ImmediateWord(0xFFE1_0093);
    StoreWord(0x0431_2223);
    BranchWord(0xFE20_8CE3);
    UpperWord(0x1234_50B7);
    JumpWord(0x0020_10EF);
  }

  // ---- the record ----------------------------------------------------------------------------------

  predicate TableValue(n: int) { 0 <= n <= 7 || n == 0x20 || n == 0x105 || KnownCode(n) }

  predicate InTable(sel: Selection)
    requires sel.Selection?
  {
    && TableValue(sel.opcode)
    && (sel.funct3.Fixed? ==> TableValue(sel.funct3.value))
    && (sel.funct7.Fixed? ==> TableValue(sel.funct7.value))
    && (sel.funct12.Fixed? ==> TableValue(sel.funct12.value))
  }

  function ToWord(n: int): (w: Word)
    requires TableValue(n)
    ensures Value(w) == n
  {
    if n == 0 then 0 else if n == 1 then 1 else if n == 2 then 2 else if n == 3 then 3 else if n == 4 then 4
    else if n == 5 then 5 else if n == 6 then 6 else if n == 7 then 7 else if n == 0x20 then 0x20
    else if n == 0x37 then 0x37 else if n == 0x17 then 0x17 else if n == 0x6F then 0x6F else if n == 0x67 then 0x67
    else if n == 0x73 then 0x73 else if n == 0x33 then 0x33 else if n == 0x13 then 0x13 else if n == 0x63 then 0x63
    else if n == 0x23 then 0x23 else 0x105
  }

  class Inst {
    var isValid: bool
    var opcode: Word
    var funct3: Word
    var funct7: Word
    var funct12: Word
    var rs1: Word
    var rs2: Word
    var rd: Word
    var immValue: Word
    var inst: Word
    var op: Op
    var riscv: RiscvType
    var imm: ImmType

    constructor ()
      ensures !isValid && rs1 == 0 && rs2 == 0 && rd == 0 && immValue == 0
    {
      isValid := false;
      rs1, rs2, rd, immValue := 0, 0, 0, 0;
    }

    /** The fields that `decode` cuts out of the word. */
    ghost predicate Sliced(w: Word)
      reads this
    {
      && inst == w && opcode == Opcode(w) && funct3 == Funct3(w) && funct7 == Funct7(w) && funct12 == Funct12(w)
    }

    ghost predicate Analyzed(w: Word)
      reads this
    {
      && Sliced(w) && rs1 == Rs1(w) && rs2 == Rs2(w) && rd == Rd(w)
      && (imm != Rimm ==> immValue == ImmValue(imm, w))
    }

    /** What `decode` leaves behind for a word that is an operation. */
    ghost predicate Decoded(w: Word)
      reads this
    {
      Analyzed(w) && op == OpOf(w) != INVALID && HasTypes(Value(opcode), riscv, imm)
    }

    ghost predicate IsDecodingOf(w: Word)
      reads this
    {
      Analyzed(w) && op == OpOf(w) && (op != INVALID ==> Decoded(w))
    }

    method Slice(word: Word)
      modifies this`isValid, this`inst, this`opcode, this`funct3, this`funct7, this`funct12
      ensures isValid && Sliced(word)
    {
      hide Opcode, Funct3, Funct7, Funct12;
      isValid := true;
      inst := word;
      opcode := Opcode(inst);
      funct3 := Funct3(inst);
      funct7 := Funct7(inst);
      funct12 := Funct12(inst);
    }

    /** The outer switch of `decode`.  An unknown opcode leaves the types as they were. */
    method DecodeOp()
      requires Sliced(inst)
      modifies this`op, this`riscv, this`imm
      ensures op == OpOf(inst)
      ensures TypesSet(opcode, riscv, imm, old(riscv), old(imm))
    {
      hide BranchOp, LoadOp, StoreOp, ImmediateOp, RegisterOp, SystemOp, Value, Opcode, Funct3, Funct7, Funct12;
      var code := Value(opcode);
      var o, r, m := INVALID, riscv, imm;
      if code == 0x37 {
        o, r, m := LUI, UType, Uimm;
      } else if code == 0x17 {
        o, r, m := AUIPC, UType, Uimm;
      } else if code == 0x6F {
        o, r, m := JAL, UType, Jimm;
      } else if code == 0x67 {
        o, r, m := JALR, IType, Iimm;
      } else if code == 0x63 {
        o, r, m := BranchOp(Value(funct3)), SType, Bimm;
      } else if code == 0x03 {
        o, r, m := LoadOp(Value(funct3)), IType, Iimm;
      } else if code == 0x23 {
        o, r, m := StoreOp(Value(funct3)), SType, Simm;
      } else if code == 0x13 {
        o, r, m := ImmediateOp(Value(funct3), Value(funct7)), IType, Iimm;
      } else if code == 0x33 {
        o, r, m := RegisterOp(Value(funct7), Value(funct3)), RType, Rimm;
      } else if code == 0x73 {
        o, r, m := SystemOp(Value(funct3), Value(funct12)), PType, Rimm;
      }
      op, riscv, imm := o, r, m;
    }

    /** The switch of `analyze`. */
    method AnalyzeImm() returns (value: Word)
      requires Sliced(inst) && imm != Rimm
      ensures value == ImmValue(imm, inst)
    {
      hide SignextIimm, SignextSimm, SignextBimm, SignextJimm, Value, Opcode, Funct3, Funct7, Funct12, Rs2;
      match imm {
        case Iimm =>
          if Value(opcode) == 0x13 && (Value(funct3) == 1 || Value(funct3) == 5) {
            value := Rs2(inst);
          } else {
            value := AnalyzeI(inst);
          }
        case Simm => value := AnalyzeS(inst);
        case Bimm => value := AnalyzeB(inst);
        case Uimm => value := Upper(inst);
        case Jimm => value := AnalyzeJ(inst);
      }
    }

    method Analyze()
      requires Sliced(inst)
      modifies this`rs1, this`rs2, this`rd, this`immValue
      ensures Analyzed(inst)
      ensures imm == Rimm ==> immValue == old(immValue)
    {
      hide Opcode, Funct3, Funct7, Funct12, Rs1, Rs2, Rd, ImmValue;
      rs2 := Rs2(inst);
      rs1 := Rs1(inst);
      rd := Rd(inst);
      if imm != Rimm {
        immValue := AnalyzeImm();
      }
    }

    method Decode(word: Word)
      modifies this
      ensures isValid && IsDecodingOf(word)
      ensures TypesSet(Opcode(word), riscv, imm, old(riscv), old(imm))
      ensures imm == Rimm ==> immValue == old(immValue)
    {
      hide Opcode, Funct3, Funct7, Funct12, Rs1, Rs2, Rd, OpOf, HasTypes, ImmValue, TypesSet;
      Slice(word);
      DecodeOp();
      if op != INVALID {
        TypesOfOp(inst, riscv, imm, old(riscv), old(imm));
      }
      Analyze();
    }

    /** The record holds the table entry of `op`; fields that the table leaves unset hold anything. */
    ghost predicate Holds(sel: Selection)
      requires sel.Selection?
      reads this
    {
      && riscv == sel.riscv && imm == sel.imm && Value(opcode) == sel.opcode
      && (sel.funct3.Fixed? ==> Value(funct3) == sel.funct3.value)
      && (sel.funct7.Fixed? ==> Value(funct7) == sel.funct7.value)
      && (sel.funct12.Fixed? ==> Value(funct12) == sel.funct12.value)
    }

    /** `assign`.  Where the entry is unset the record takes the arbitrary value `other`. */
    method Assign(sel: Selection, other: Word)
      requires sel.Selection? && InTable(sel)
      modifies this`riscv, this`imm, this`opcode, this`funct3, this`funct7, this`funct12
      ensures Holds(sel)
    {
      hide Value;
      riscv := sel.riscv;
      imm := sel.imm;
      opcode := ToWord(sel.opcode);
      funct3 := if sel.funct3.Fixed? then ToWord(sel.funct3.value) else other;
      funct7 := if sel.funct7.Fixed? then ToWord(sel.funct7.value) else other;
      funct12 := if sel.funct12.Fixed? then ToWord(sel.funct12.value) else other;
    }

    function Encode(): Word
      reads this
    {
      match riscv
      case RType => EncodeR(opcode, rd, funct3, rs1, rs2, funct7)
      case IType =>
        if IsShift(op) then EncodeShift(opcode, rd, funct3, rs1, immValue, funct7)
        else EncodeI(opcode, rd, funct3, rs1, immValue)
      case SType =>
        if imm == Simm then EncodeS(opcode, funct3, rs1, rs2, immValue)
        else if imm == Bimm then EncodeB(opcode, funct3, rs1, rs2, immValue)
        else opcode | (funct3 << 12) | (rs1 << 15) | (rs2 << 20)
      case UType =>
        if imm == Uimm then EncodeU(opcode, rd, immValue)
        else if imm == Jimm then EncodeJ(opcode, rd, immValue)
        else opcode | (rd << 7)
      case PType => EncodeI(opcode, rd, funct3, rs1, funct12)
    }
  }

  lemma SelectInTable(op: Op)
    requires Select(op).Selection?
    ensures InTable(Select(op))
  {
    hide Select, KnownCode;
    TableOpcode(op);
    TableShape(op);
  }

  // ---- round trips -----------------------------------------------------------------------------------

  /** Encoding what was decoded gives the word back, except that the top bit of a store is lost,
      so that stores come back exactly if their offset is not negative. */
  lemma EncodeAfterDecode(x: Inst, w: Word)
    requires x.Decoded(w)
    ensures x.imm != Simm ==> x.Encode() == w
    ensures x.imm == Simm ==> x.Encode() == w & 0x7FFF_FFFF && (x.Encode() == w <==> w <= 0x7FFF_FFFF)
  {
    hide EncodeR, EncodeShift, EncodeI, EncodeS, EncodeB, EncodeU, EncodeJ, OpOf, IsShift, Value;
    hide SignextIimm, SignextSimm, SignextBimm, SignextJimm, Opcode, Rd, Rs1, Rs2, Funct3, Funct7, Funct12, Upper;
    KnownWord(w);
    WordR(w);
    WordShift(w);
    WordI(w);
    WordP(w);
    WordS(w);
    TopBit(w);
    WordB(w);
    WordU(w);
    WordJ(w);
  }

  /** The immediate is one that comes back from the format in which `op` is written. */
  predicate Fits(op: Op, kind: ImmType, imm: Word) {
    match kind
    case Rimm => true
    case Iimm => if IsShift(op) then FitsShift(imm) else FitsI(imm)
    case Simm => FitsS(imm)
    case Bimm => FitsB(imm)
    case Uimm => if op == JAL then FitsJalTable(imm) else FitsU(imm)
    case Jimm => FitsJ(imm)
  }

  lemma SevenBits(w: Word)
    requires Value(w) <= 0x7F
    ensures w <= 0x7F
  {
  }

  lemma ThreeBits(w: Word)
    requires Value(w) <= 7
    ensures w <= 7
  {
  }

  lemma HaltCode(w: Word)
    requires Value(w) == 0x105
    ensures w == 0x105
  {
  }

  /** The fields of the record that `encode` uses, and what the word then holds. */
  ghost predicate Restored(x: Inst, w: Word)
    reads x
  {
    && Opcode(w) == x.opcode
    && (x.riscv != UType ==> Funct3(w) == x.funct3 && Rs1(w) == x.rs1)
    && (x.riscv == RType || IsShift(x.op) ==> Funct7(w) == x.funct7)
    && (x.riscv == PType ==> Funct12(w) == x.funct12)
    && (x.riscv != SType ==> Rd(w) == x.rd)
    && (x.riscv == RType || x.riscv == SType ==> Rs2(w) == x.rs2)
  }

  ghost predicate Encodable(x: Inst)
    reads x
  {
    && x.opcode <= 0x7F && x.rd <= 0x1F && x.rs1 <= 0x1F && x.rs2 <= 0x1F
    && (x.riscv != UType ==> x.funct3 <= 7) && (x.riscv == RType || IsShift(x.op) ==> x.funct7 <= 0x7F)
    && (x.riscv == PType ==> x.funct12 <= 0xFFF)
    && (IsShift(x.op) ==> x.riscv == IType)
    && (x.riscv == SType ==> x.imm == Simm || x.imm == Bimm) && (x.riscv == UType ==> x.imm == Uimm || x.imm == Jimm)
  }

  lemma EncodeRestores(x: Inst)
    requires Encodable(x)
    ensures Restored(x, x.Encode())
  {
    hide EncodeR, EncodeShift, EncodeI, EncodeS, EncodeB, EncodeU, EncodeJ, IsShift, FitsI, FitsS, FitsB, FitsU, FitsJ;
    hide SignextIimm, SignextSimm, SignextBimm, SignextJimm, Opcode, Rd, Rs1, Rs2, Funct3, Funct7, Funct12, Upper;
    match x.riscv {
      case RType => FieldsR(x.opcode, x.rd, x.funct3, x.rs1, x.rs2, x.funct7);
      case IType =>
        if IsShift(x.op) {
          FieldsShift(x.opcode, x.rd, x.funct3, x.rs1, x.immValue, x.funct7);
        } else {
          FieldsI(x.opcode, x.rd, x.funct3, x.rs1, x.immValue);
        }
      case SType =>
        if x.imm == Simm {
          FieldsS(x.opcode, x.funct3, x.rs1, x.rs2, x.immValue);
        } else {
          FieldsB(x.opcode, x.funct3, x.rs1, x.rs2, x.immValue);
        }
      case UType =>
        if x.imm == Uimm {
          FieldsU(x.opcode, x.rd, x.immValue);
        } else {
          FieldsJ(x.opcode, x.rd, x.immValue);
        }
      case PType => FieldsI(x.opcode, x.rd, x.funct3, x.rs1, x.funct12);
    }
  }

  /** A record set up from the table, with register numbers below 32. */
  ghost predicate FromTable(x: Inst, op: Op)
    reads x
  {
    && Select(op).Selection? && x.op == op && x.Holds(Select(op))
    && x.rd <= 0x1F && x.rs1 <= 0x1F && x.rs2 <= 0x1F
  }

  lemma TableIsEncodable(x: Inst, op: Op)
    requires FromTable(x, op)
    ensures Encodable(x)
  {
    hide Value, Select, IsShift;
    TableShape(op);
    TableImmediates(op);
    SevenBits(x.opcode);
    if Select(op).funct3.Fixed? {
      ThreeBits(x.funct3);
    }
    if Select(op).funct7.Fixed? {
      SevenBits(x.funct7);
    }
    if Select(op).funct12.Fixed? {
      HaltCode(x.funct12);
    }
  }

  lemma TableIsRecognised(x: Inst, op: Op, w: Word)
    requires FromTable(x, op) && Restored(x, w)
    ensures OpOf(w) == op
  {
    hide Value, Select, IsShift, Opcode, Rd, Rs1, Rs2, Funct3, Funct7, Funct12, OpOf, OpFrom;
    TableShape(op);
    assert Matches(op, w);
    DecodeInvertsSelect(w);
    NoInvalidFields(op, Value(Opcode(w)), Value(Funct3(w)), Value(Funct7(w)), Value(Funct12(w)));
  }

  /** The type in which the immediate of `op` is read. */
  function ReadAs(op: Op): ImmType
    requires Select(op).Selection?
  {
    if op == JAL then Jimm else Select(op).imm
  }

  lemma ImmediateSurvives(x: Inst, op: Op)
    requires FromTable(x, op) && x.imm != Rimm && Encodable(x) && Restored(x, x.Encode())
    ensures ImmValue(ReadAs(op), x.Encode()) == x.immValue <==> Fits(op, x.imm, x.immValue)
  {
    hide EncodeR, EncodeShift, EncodeI, EncodeS, EncodeB, EncodeU, EncodeJ;
    hide FitsShift, FitsI, FitsS, FitsB, FitsU, FitsJ;
    hide SignextIimm, SignextSimm, SignextBimm, SignextJimm, Opcode, Rd, Rs1, Rs2, Funct3, Funct7, Funct12, Upper;
    hide Value, Select, IsShift;
    TableShape(op);
    TableImmediates(op);
    match x.imm {
      case Iimm =>
        if IsShift(op) {
          FieldsShift(x.opcode, x.rd, x.funct3, x.rs1, x.immValue, x.funct7);
        } else {
          ImmediateI(x.opcode, x.rd, x.funct3, x.rs1, x.immValue);
        }
      case Simm => FieldsS(x.opcode, x.funct3, x.rs1, x.rs2, x.immValue);
      case Bimm => ImmediateB(x.opcode, x.funct3, x.rs1, x.rs2, x.immValue);
      case Uimm =>
        if op == JAL {
          ImmediateJal(x.opcode, x.rd, x.immValue);
        } else {
          FieldsU(x.opcode, x.rd, x.immValue);
        }
      case Jimm =>
    }
  }

  lemma TypesAreUnique(code: int, r: RiscvType, m: ImmType, r': RiscvType, m': ImmType)
    requires KnownCode(code) && HasTypes(code, r, m) && HasTypes(code, r', m')
    ensures r == r' && m == m'
  {
  }

  lemma JalTypes(code: int, r: RiscvType, m: ImmType)
    requires code == Select(JAL).opcode && HasTypes(code, r, m)
    ensures r == Select(JAL).riscv && m == Jimm != Select(JAL).imm
  {
  }

  lemma TypesComeBack(x: Inst, y: Inst, op: Op)
    requires FromTable(x, op) && y.opcode == x.opcode
    requires KnownCode(Value(x.opcode)) && HasTypes(Value(y.opcode), y.riscv, y.imm)
    ensures y.riscv == x.riscv && y.imm == ReadAs(op) && (y.imm == x.imm <==> op != JAL)
  {
    hide Value, HasTypes, KnownCode;
    TypesOfTable(op);
    if op == JAL {
      JalTypes(Value(x.opcode), y.riscv, y.imm);
    } else {
      hide Select;
      TypesAreUnique(Value(x.opcode), x.riscv, x.imm, y.riscv, y.imm);
    }
  }

  /** Encoding a record set up from the table and decoding the word gives the operation and the
      registers back, the types except for the immediate type of `JAL`, and the immediate exactly
      if it fits the format. */
  lemma DecodeAfterEncode(x: Inst, y: Inst, op: Op)
    requires FromTable(x, op)
    requires y.IsDecodingOf(x.Encode())
    ensures y.op == op
    ensures y.riscv == x.riscv && (y.imm == x.imm <==> op != JAL)
    ensures x.riscv != SType ==> y.rd == x.rd
    ensures x.riscv != UType ==> y.rs1 == x.rs1
    ensures x.riscv == RType || x.riscv == SType ==> y.rs2 == x.rs2
    ensures x.imm != Rimm ==> (y.immValue == x.immValue <==> Fits(op, x.imm, x.immValue))
  {
    hide Value, Select, IsShift, Opcode, Rd, Rs1, Rs2, Funct3, Funct7, Funct12;
    hide OpOf, ImmValue, Fits, HasTypes, KnownCode;
    var w := x.Encode();
    TableIsEncodable(x, op);
    EncodeRestores(x);
    TableIsRecognised(x, op, w);
    NotInvalid(op);
    KnownWord(w);
    TypesComeBack(x, y, op);
    if x.imm != Rimm {
      ImmediateSurvives(x, op);
    }
  }

  /** The offset of a jump set up from the table comes back if it is one of four; a jump by
      4096 bytes, for one, does not. */
  lemma JumpSurvivesIff(x: Inst, y: Inst)
    requires FromTable(x, JAL) && y.IsDecodingOf(x.Encode())
    ensures y.immValue == x.immValue
       <==> x.immValue == 0 || x.immValue == 0x2_2222 || x.immValue == 0x4_4444 || x.immValue == 0x6_6666
    ensures x.immValue == 0x1000 ==> y.immValue != x.immValue
  {
    hide Value;
    assert RowOf(JAL) == U(0x6F);
    DecodeAfterEncode(x, y, JAL);
  }

  /** A record for `op`, by `assign` with its entry of `select`. */
  method Prepare(op: Op, rd: Word, rs1: Word, rs2: Word, immValue: Word, other: Word) returns (x: Inst)
    requires Select(op).Selection? && rd <= 0x1F && rs1 <= 0x1F && rs2 <= 0x1F
    ensures fresh(x) && FromTable(x, op)
    ensures x.rd == rd && x.rs1 == rs1 && x.rs2 == rs2 && x.immValue == immValue
  {
    hide Select, Value, InTable;
    x := new Inst();
    SelectInTable(op);
    x.Assign(Select(op), other);
    x.op, x.rd, x.rs1, x.rs2, x.immValue := op, rd, rs1, rs2, immValue;
  }
}
