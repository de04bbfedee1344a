/** The operations of `testbench/riscv_inst.h`: the table of their fixed fields in `select` and
    the switches of `decode` that recognise them. */
module InstTable {

  datatype Op =
    | LUI | ADDI | SLTI | SLTIU | ANDI | ORI | XORI | SLLI | SRLI | SRAI | AUIPC
    | ADD | SLT | SLTU | AND | OR | XOR | SLL | SRL | SRA | SUB | NOP
    | JAL | JALR | BEQ | BNE | BLT | BLTU | BGE | BGEU
    | LB | LH | LW | LBU | LHU | SB | SH | SW
    | MUL | MULH | MULHU | MULHSU | WFI | INVALID

  datatype RiscvType = RType | IType | SType | UType | PType

  datatype ImmType = Rimm | Iimm | Simm | Bimm | Uimm | Jimm

  // ---- the fixed fields of each operation ------------------------------------------------------

  /** A field that the table leaves unset holds whatever was there before. */
  datatype Field = Unset | Fixed(value: int)

  datatype Selection =
    | NoSelection
    | Selection(riscv: RiscvType, imm: ImmType, opcode: int, funct3: Field, funct7: Field, funct12: Field)

  /** The kinds of rows in the table. */
  datatype Row =
    | NoRow
    | R(funct3: int, funct7: int)
    | I(opcode: int, funct3: int)
    | Shift(funct3: int, funct7: int)
    | U(opcode: int)
    | Branch(funct3: int)
    | Store(funct3: int)
    | System(funct3: int, funct12: int)

  /** A row written out; the fields that it leaves unset are `Unset`. */
  function FromRow(row: Row): Selection {
    match row
    case NoRow => NoSelection
    case R(funct3, funct7) => Selection(RType, Rimm, 0x33, Fixed(funct3), Fixed(funct7), Unset)
    case I(opcode, funct3) => Selection(IType, Iimm, opcode, Fixed(funct3), Unset, Unset)
    case Shift(funct3, funct7) => Selection(IType, Iimm, 0x13, Fixed(funct3), Fixed(funct7), Unset)
    case U(opcode) => Selection(UType, Uimm, opcode, Unset, Unset, Unset)
    case Branch(funct3) => Selection(SType, Bimm, 0x63, Fixed(funct3), Unset, Unset)
    case Store(funct3) => Selection(SType, Simm, 0x23, Fixed(funct3), Unset, Unset)
    case System(funct3, funct12) => Selection(PType, Rimm, 0x73, Fixed(funct3), Unset, Fixed(funct12))
  }

  function RowOf(op: Op): Row {
    match op
    case ADDI => I(0x13, 0)
    case SLTI => I(0x13, 2)
    case SLTIU => I(0x13, 3)
    case ANDI => I(0x13, 7)
    case ORI => I(0x13, 6)
    case XORI => I(0x13, 4)
    case SLLI => Shift(1, 0x00)
    case SRLI => Shift(5, 0x00)
    case SRAI => Shift(5, 0x20)
    case LUI => U(0x37)
    case AUIPC => U(0x17)
    case ADD => R(0, 0x00)
    case SLT => R(2, 0x00)
    case SLTU => R(3, 0x00)
    case AND => R(7, 0x00)
    case OR => R(6, 0x00)
    case XOR => R(4, 0x00)
    case SLL => R(1, 0x00)
    case SRL => R(5, 0x00)
    case SRA => R(5, 0x20)
    case SUB => R(0, 0x20)
    case JAL => U(0x6F)
    case JALR => I(0x67, 0)
    case BEQ => Branch(0)
    case BNE => Branch(1)
    case BLT => Branch(4)
    case BLTU => Branch(6)
    case BGE => Branch(5)
    case BGEU => Branch(7)
    case LB => I(0x03, 0)
    case LH => I(0x03, 1)
    case LW => I(0x03, 2)
    case LBU => I(0x03, 4)
    case LHU => I(0x03, 5)
    case SB => Store(0)
    case SH => Store(1)
    case SW => Store(2)
    case MUL => R(0, 0x01)
    case MULH => R(1, 0x01)
    case MULHU => R(3, 0x01)
    case MULHSU => R(2, 0x01)
    case WFI => System(0, 0x105)
    case NOP => NoRow
    case INVALID => NoRow
  }

  /** `select`. */
  function Select(op: Op): Selection { FromRow(RowOf(op)) }

  /** The fixed fields of `op`.  For `JALR` the third field is not looked at. */
  predicate HasFields(op: Op, opcode: int, funct3: int, funct7: int, funct12: int) {
    var s := Select(op);
    && s.Selection? && opcode == s.opcode
    && (s.funct3.Fixed? && op != JALR ==> funct3 == s.funct3.value)
    && (s.funct7.Fixed? ==> funct7 == s.funct7.value)
    && (s.funct12.Fixed? ==> funct12 == s.funct12.value)
  }

  // ---- the inner switches of decode -------------------------------------------------------------

  function BranchOp(funct3: int): Op {
    if funct3 == 0 then BEQ else if funct3 == 1 then BNE else if funct3 == 4 then BLT
    else if funct3 == 5 then BGE else if funct3 == 6 then BLTU else if funct3 == 7 then BGEU else INVALID
  }

  function LoadOp(funct3: int): Op {
    if funct3 == 0 then LB else if funct3 == 1 then LH else if funct3 == 2 then LW
    else if funct3 == 4 then LBU else if funct3 == 5 then LHU else INVALID
  }

  function StoreOp(funct3: int): Op {
    if funct3 == 0 then SB else if funct3 == 1 then SH else if funct3 == 2 then SW else INVALID
  }

  function ImmediateOp(funct3: int, funct7: int): Op {
    if funct3 == 0 then ADDI else if funct3 == 2 then SLTI else if funct3 == 3 then SLTIU
    else if funct3 == 4 then XORI else if funct3 == 6 then ORI else if funct3 == 7 then ANDI
    else if funct3 == 1 then if funct7 == 0 then SLLI else INVALID
    else if funct3 == 5 then if funct7 == 0 then SRLI else if funct7 == 0x20 then SRAI else INVALID
    else INVALID
  }

  /** The switch runs on the two fields joined; `InstWord.KeyIsSum` says that joining is adding. */
  function RegisterOp(funct7: int, funct3: int): Op {
    var key := 16 * funct7 + funct3;
    if key == 0x000 then ADD else if key == 0x200 then SUB else if key == 0x001 then SLL
    else if key == 0x002 then SLT else if key == 0x003 then SLTU else if key == 0x004 then XOR
    else if key == 0x005 then SRL else if key == 0x205 then SRA else if key == 0x006 then OR
    else if key == 0x007 then AND else if key == 0x010 then MUL else if key == 0x011 then MULH
    else if key == 0x012 then MULHSU else if key == 0x013 then MULHU else INVALID
  }

  function SystemOp(funct3: int, funct12: int): Op {
    if funct3 == 0 && funct12 == 0x105 then WFI else INVALID
  }

  function OpFrom(opcode: int, funct3: int, funct7: int, funct12: int): Op {
    if opcode == 0x37 then LUI
    else if opcode == 0x17 then AUIPC
    else if opcode == 0x6F then JAL
    else if opcode == 0x67 then JALR
    else if opcode == 0x63 then BranchOp(funct3)
    else if opcode == 0x03 then LoadOp(funct3)
    else if opcode == 0x23 then StoreOp(funct3)
    else if opcode == 0x13 then ImmediateOp(funct3, funct7)
    else if opcode == 0x33 then RegisterOp(funct7, funct3)
    else if opcode == 0x73 then SystemOp(funct3, funct12)
    else INVALID
  }

  lemma BaseHasFields(funct3: int, funct12: int)
    requires 0 <= funct3 <= 7
    ensures HasFields(RegisterOp(0x00, funct3), 0x33, funct3, 0x00, funct12)
  {
  }

  lemma MultiplyHasFields(funct3: int, funct12: int)
    requires 0 <= funct3 <= 7 && RegisterOp(0x01, funct3) != INVALID
    ensures HasFields(RegisterOp(0x01, funct3), 0x33, funct3, 0x01, funct12)
  {
  }

  lemma AlternateHasFields(funct3: int, funct12: int)
    requires 0 <= funct3 <= 7 && RegisterOp(0x20, funct3) != INVALID
    ensures HasFields(RegisterOp(0x20, funct3), 0x33, funct3, 0x20, funct12)
  {
  }

  lemma RegisterHasFields(funct3: int, funct7: int, funct12: int)
    requires 0 <= funct3 <= 7 && RegisterOp(funct7, funct3) != INVALID
    ensures HasFields(RegisterOp(funct7, funct3), 0x33, funct3, funct7, funct12)
  {
    hide Select, HasFields;
    if funct7 == 0x00 {
      BaseHasFields(funct3, funct12);
    } else if funct7 == 0x01 {
      MultiplyHasFields(funct3, funct12);
    } else {
      AlternateHasFields(funct3, funct12);
    }
  }

  lemma ImmediateHasFields(funct3: int, funct7: int, funct12: int)
    requires ImmediateOp(funct3, funct7) != INVALID
    ensures HasFields(ImmediateOp(funct3, funct7), 0x13, funct3, funct7, funct12)
  {
  }

  lemma BranchHasFields(funct3: int, funct7: int, funct12: int)
    requires BranchOp(funct3) != INVALID
    ensures HasFields(BranchOp(funct3), 0x63, funct3, funct7, funct12)
  {
  }

  lemma LoadHasFields(funct3: int, funct7: int, funct12: int)
    requires LoadOp(funct3) != INVALID
    ensures HasFields(LoadOp(funct3), 0x03, funct3, funct7, funct12)
  {
  }

  lemma StoreHasFields(funct3: int, funct7: int, funct12: int)
    requires StoreOp(funct3) != INVALID
    ensures HasFields(StoreOp(funct3), 0x23, funct3, funct7, funct12)
  {
  }

  lemma OtherHasFields(funct3: int, funct7: int, funct12: int)
    ensures HasFields(LUI, 0x37, funct3, funct7, funct12)
    ensures HasFields(AUIPC, 0x17, funct3, funct7, funct12)
    ensures HasFields(JAL, 0x6F, funct3, funct7, funct12)
    ensures HasFields(JALR, 0x67, funct3, funct7, funct12)
    ensures SystemOp(funct3, funct12) != INVALID ==>
      HasFields(SystemOp(funct3, funct12), 0x73, funct3, funct7, funct12)
  {
  }

  /** An operation is recognised only by its fixed fields. */
  lemma OpHasFields(opcode: int, funct3: int, funct7: int, funct12: int)
    requires 0 <= funct3 <= 7
    requires OpFrom(opcode, funct3, funct7, funct12) != INVALID
    ensures HasFields(OpFrom(opcode, funct3, funct7, funct12), opcode, funct3, funct7, funct12)
  {
    hide Select, HasFields, RegisterOp, ImmediateOp, BranchOp, LoadOp, StoreOp, SystemOp;
    if opcode == 0x33 {
      RegisterHasFields(funct3, funct7, funct12);
    } else if opcode == 0x13 {
      ImmediateHasFields(funct3, funct7, funct12);
    } else if opcode == 0x63 {
      BranchHasFields(funct3, funct7, funct12);
    } else if opcode == 0x03 {
      LoadHasFields(funct3, funct7, funct12);
    } else if opcode == 0x23 {
      StoreHasFields(funct3, funct7, funct12);
    } else {
      OtherHasFields(funct3, funct7, funct12);
    }
  }

  lemma RegisterIsOp(op: Op)
    requires RowOf(op).R?
    ensures RegisterOp(RowOf(op).funct7, RowOf(op).funct3) == op
  {
  }

  lemma ShiftIsOp(op: Op)
    requires RowOf(op).Shift?
    ensures ImmediateOp(RowOf(op).funct3, RowOf(op).funct7) == op
  {
  }

  lemma IsOpOfI(op: Op, funct3: int, funct7: int)
    requires RowOf(op).I? && (funct3 == RowOf(op).funct3 || op == JALR)
    ensures RowOf(op).opcode == 0x13 ==> ImmediateOp(funct3, funct7) == op
    ensures RowOf(op).opcode == 0x03 ==> LoadOp(funct3) == op
    ensures RowOf(op).opcode != 0x13 && RowOf(op).opcode != 0x03 ==> RowOf(op).opcode == 0x67 && op == JALR
  {
  }

  lemma IsOpOfS(op: Op)
    ensures RowOf(op).Branch? ==> BranchOp(RowOf(op).funct3) == op
    ensures RowOf(op).Store? ==> StoreOp(RowOf(op).funct3) == op
  {
  }

  lemma IsOpOfU(op: Op)
    ensures RowOf(op).U? ==> OpFrom(RowOf(op).opcode, 0, 0, 0) == op
    ensures RowOf(op).System? ==> SystemOp(RowOf(op).funct3, RowOf(op).funct12) == op
    ensures op == JALR ==> RowOf(op).I?
  {
  }

  lemma RowOpcode(op: Op)
    ensures var row := RowOf(op);
      && (row.I? ==> row.opcode == 0x13 || row.opcode == 0x67 || row.opcode == 0x03)
      && (row.U? ==> row.opcode == 0x37 || row.opcode == 0x17 || row.opcode == 0x6F)
  {
  }

  /** Whatever has the fixed fields of an operation is recognised as that operation. */
  lemma FieldsAreOp(op: Op, opcode: int, funct3: int, funct7: int, funct12: int)
    requires HasFields(op, opcode, funct3, funct7, funct12)
    ensures Select(op).opcode == opcode && OpFrom(opcode, funct3, funct7, funct12) == op
  {
    RowOpcode(op);
    IsOpOfU(op);
    hide RowOf, RegisterOp, ImmediateOp, BranchOp, LoadOp, StoreOp, SystemOp;
    match RowOf(op) {
      case R(_, _) => RegisterIsOp(op);
      case Shift(_, _) => ShiftIsOp(op);
      case I(_, _) => IsOpOfI(op, funct3, funct7);
      case _ => IsOpOfS(op);
    }
  }

  // ---- the types of each operation ---------------------------------------------------------------

  predicate IsShift(op: Op) { op == SLLI || op == SRLI || op == SRAI }

  /** The types that `decode` sets for an opcode it knows. */
  predicate HasTypes(opcode: int, riscv: RiscvType, imm: ImmType) {
    && (opcode == 0x37 || opcode == 0x17 ==> riscv == UType && imm == Uimm)
    && (opcode == 0x6F ==> riscv == UType && imm == Jimm)
    && (opcode == 0x67 || opcode == 0x03 || opcode == 0x13 ==> riscv == IType && imm == Iimm)
    && (opcode == 0x63 ==> riscv == SType && imm == Bimm)
    && (opcode == 0x23 ==> riscv == SType && imm == Simm)
    && (opcode == 0x33 ==> riscv == RType && imm == Rimm)
    && (opcode == 0x73 ==> riscv == PType && imm == Rimm)
  }

  predicate KnownCode(opcode: int) {
    || opcode == 0x37 || opcode == 0x17 || opcode == 0x6F || opcode == 0x67 || opcode == 0x73
    || opcode == 0x33 || opcode == 0x13 || opcode == 0x63 || opcode == 0x03 || opcode == 0x23
  }

  lemma KnownOpcode(opcode: int, funct3: int, funct7: int, funct12: int)
    requires OpFrom(opcode, funct3, funct7, funct12) != INVALID
    ensures KnownCode(opcode)
  {
  }

  lemma ShiftOps(opcode: int, funct3: int, funct7: int, funct12: int)
    requires OpFrom(opcode, funct3, funct7, funct12) != INVALID
    ensures IsShift(OpFrom(opcode, funct3, funct7, funct12)) <==> opcode == 0x13 && (funct3 == 1 || funct3 == 5)
  {
    if opcode != 0x13 && opcode == 0x33 {
      assert !IsShift(RegisterOp(funct7, funct3));
    }
  }

  // ---- the shape of the table ------------------------------------------------------------------

  lemma ShiftRows(op: Op)
    ensures RowOf(op).Shift? <==> IsShift(op)
  {
  }

  lemma JumpRow(op: Op)
    ensures RowOf(op) == U(0x6F) <==> op == JAL
  {
  }

  lemma RowFunct3(op: Op)
    ensures var row := RowOf(op); !row.NoRow? && !row.U? ==> 0 <= row.funct3 <= 7
  {
  }

  lemma RowFunct7(op: Op)
    ensures var row := RowOf(op);
      row.R? || row.Shift? ==> row.funct7 == 0x00 || row.funct7 == 0x01 || row.funct7 == 0x20
  {
  }

  lemma RowShift(op: Op)
    ensures var row := RowOf(op);
      && (row.Shift? ==> row.funct3 == 1 || row.funct3 == 5)
      && (row.I? && row.opcode == 0x13 ==> row.funct3 != 1 && row.funct3 != 5)
  {
  }

  lemma RowFunct12(op: Op)
    ensures RowOf(op).System? ==> RowOf(op).funct12 == 0x105
  {
  }

  lemma NotInvalid(op: Op)
    requires Select(op).Selection?
    ensures op != INVALID
  {
  }

  /** The table and `decode` agree on the types of every operation except `JAL`, to which the
      table gives the immediate of `LUI`. */
  lemma TypesOfTable(op: Op)
    requires Select(op).Selection?
    ensures HasTypes(Select(op).opcode, Select(op).riscv, Select(op).imm) <==> op != JAL
  {
    hide RowOf;
    JumpRow(op);
    RowOpcode(op);
  }

  lemma TableOpcode(op: Op)
    requires Select(op).Selection?
    ensures KnownCode(Select(op).opcode)
  {
    hide RowOf;
    RowOpcode(op);
  }

  lemma TableImmediates(op: Op)
    requires Select(op).Selection?
    ensures Select(op).imm == Iimm <==> Select(op).riscv == IType
    ensures Select(op).imm == Simm || Select(op).imm == Bimm <==> Select(op).riscv == SType
    ensures Select(op).imm == Uimm <==> Select(op).riscv == UType
    ensures Select(op).imm != Jimm && (op == JAL ==> Select(op).imm == Uimm)
  {
    hide RowOf;
    JumpRow(op);
  }

  /** Every arm of `encode` uses only fields that the table sets, within their width. */
  lemma TableShape(op: Op)
    requires Select(op).Selection?
    ensures var sel := Select(op);
      && 0 <= sel.opcode <= 0x7F
      && (sel.funct3.Fixed? <==> sel.riscv != UType) && (sel.funct3.Fixed? ==> 0 <= sel.funct3.value <= 7)
      && (sel.funct7.Fixed? <==> sel.riscv == RType || IsShift(op))
      && (sel.funct7.Fixed? ==> sel.funct7.value == 0x00 || sel.funct7.value == 0x01 || sel.funct7.value == 0x20)
      && (sel.funct12.Fixed? <==> sel.riscv == PType) && (sel.funct12.Fixed? ==> sel.funct12.value == 0x105)
      && (IsShift(op) ==> sel.riscv == IType)
      && (sel.riscv == IType ==>
            (IsShift(op) <==> sel.opcode == 0x13 && (sel.funct3.value == 1 || sel.funct3.value == 5)))
  {
    hide RowOf, IsShift;
    ShiftRows(op);
    RowFunct3(op);
    RowFunct7(op);
    RowShift(op);
    RowOpcode(op);
    RowFunct12(op);
  }
}
