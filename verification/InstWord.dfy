/** Words of the instruction set: cutting fields out of a 32-bit word and putting a word
    together from fields, in the formats of section 2.2 of the RISC-V Unprivileged ISA Manual. */
module InstWord {

  import InstBits

  type Word = bv32

  // ---- fields of a word ------------------------------------------------------------------------

  function Opcode(w: Word): Word { w & 0x7F }

  function Funct3(w: Word): Word { (w >> 12) & 7 }

  function Funct7(w: Word): Word { w >> 25 }

  function Funct12(w: Word): Word { w >> 20 }

  function Upper(w: Word): Word { (w >> 12) & 0xFFFFF }

  function Rs2(w: Word): Word { (w >> 20) & 0x1F }

  function Rs1(w: Word): Word { (w >> 15) & 0x1F }

  function Rd(w: Word): Word { (w >> 7) & 0x1F }

  /** Joining the two fields of an arithmetic instruction is adding them. */
  lemma KeyIsSum(funct7: Word, funct3: Word)
    requires funct7 <= 0x7F && funct3 <= 7
    ensures (funct7 << 4) | funct3 == 16 * funct7 + funct3
  {
  }

  // ---- the immediate macros of ISA.svh ---------------------------------------------------------

  /** 32 copies of bit 31. */
  function SignBits(w: Word): Word { 0 - (w >> 31) }

  function SignextIimm(w: Word): Word { (SignBits(w) << 11) | ((w >> 20) & 0x7FF) }

  function SignextSimm(w: Word): Word {
    (SignBits(w) << 11) | (((w >> 25) & 0x3F) << 5) | ((w >> 7) & 0x1F)
  }

  function SignextBimm(w: Word): Word {
    (SignBits(w) << 12) | (((w >> 7) & 1) << 11) | (((w >> 25) & 0x3F) << 5) | (((w >> 8) & 0xF) << 1)
  }

  function SignextJimm(w: Word): Word {
    (SignBits(w) << 20) | (((w >> 12) & 0xFF) << 12) | (((w >> 20) & 1) << 11) | (((w >> 21) & 0x3FF) << 1)
  }

  // ---- the arms of the switch in `analyze` -------------------------------------------------------

  method AnalyzeI(inst: Word) returns (immValue: Word)
    ensures immValue == SignextIimm(inst)
  {
    InstBits.ExtendI(inst);
    immValue := (inst >> 20) & 0x7FF;
    if (inst >> 31) & 0x1 != 0 {
      immValue := immValue | 0xFFFF_F800;
    }
  }

  method AnalyzeS(inst: Word) returns (immValue: Word)
    ensures immValue == SignextSimm(inst)
  {
    InstBits.ExtendS(inst);
    immValue := (inst >> 7) & 0x1F;
    immValue := immValue | (((inst >> 25) & 0x3F) << 5);
    if (inst >> 31) & 0x1 != 0 {
      immValue := immValue | 0xFFFF_F800;
    }
  }

  method AnalyzeB(inst: Word) returns (immValue: Word)
    ensures immValue == SignextBimm(inst)
  {
    InstBits.ExtendB(inst);
    immValue := (inst >> 8) & 0xF;
    immValue := immValue | (((inst >> 25) & 0x3F) << 4);
    immValue := immValue | (((inst >> 7) & 0x1) << 10);
    immValue := immValue << 1;
    if (inst >> 31) & 0x1 != 0 {
      immValue := immValue | 0xFFFF_F000;
    }
  }

  method AnalyzeJ(inst: Word) returns (immValue: Word)
    ensures immValue == SignextJimm(inst)
  {
    InstBits.ExtendJ(inst);
    immValue := (inst >> 21) & 0x3FF;
    immValue := immValue | (((inst >> 20) & 0x1) << 10);
    immValue := immValue | (((inst >> 12) & 0xFF) << 11);
    immValue := immValue << 1;
    if (inst >> 31) & 0x1 != 0 {
      immValue := immValue | 0xFFF0_0000;
    }
  }

  // ---- the arms of the switch in `encode` --------------------------------------------------------

  function EncodeR(opcode: Word, rd: Word, funct3: Word, rs1: Word, rs2: Word, funct7: Word): Word {
    opcode | (rd << 7) | (funct3 << 12) | (rs1 << 15) | (rs2 << 20) | (funct7 << 25)
  }

  function EncodeShift(opcode: Word, rd: Word, funct3: Word, rs1: Word, imm: Word, funct7: Word): Word {
    opcode | (rd << 7) | (funct3 << 12) | (rs1 << 15) | ((imm & 0x1F) << 20) | (funct7 << 25)
  }

  function EncodeI(opcode: Word, rd: Word, funct3: Word, rs1: Word, imm: Word): Word {
    opcode | (rd << 7) | (funct3 << 12) | (rs1 << 15) | (imm << 20)
  }

  /** Bit 31, the sign of the offset, is not written. */
  function EncodeS(opcode: Word, funct3: Word, rs1: Word, rs2: Word, imm: Word): Word {
    opcode | (funct3 << 12) | (rs1 << 15) | (rs2 << 20) | ((imm & 0x1F) << 7) | (((imm >> 5) & 0x3F) << 25)
  }

  function EncodeB(opcode: Word, funct3: Word, rs1: Word, rs2: Word, imm: Word): Word {
    opcode | (funct3 << 12) | (rs1 << 15) | (rs2 << 20) | (((imm >> 11) & 0x1) << 7) | (((imm >> 1) & 0xF) << 8)
    | (((imm >> 5) & 0x3F) << 25) | (((imm >> 12) & 0x1) << 31)
  }

  function EncodeU(opcode: Word, rd: Word, imm: Word): Word { opcode | (rd << 7) | ((imm & 0xFFFFF) << 12) }

  function EncodeJ(opcode: Word, rd: Word, imm: Word): Word {
    opcode | (rd << 7) | (((imm >> 12) & 0xFF) << 12) | (((imm >> 11) & 0x1) << 20) | (((imm >> 1) & 0x3FF) << 21)
    | (((imm >> 20) & 0x1) << 31)
  }

  // The fields of a word put the word together again.

  lemma WordR(w: Word)
    ensures EncodeR(Opcode(w), Rd(w), Funct3(w), Rs1(w), Rs2(w), Funct7(w)) == w
  {
  }

  lemma WordShift(w: Word)
    ensures EncodeShift(Opcode(w), Rd(w), Funct3(w), Rs1(w), Rs2(w), Funct7(w)) == w
  {
  }

  lemma WordI(w: Word)
    ensures EncodeI(Opcode(w), Rd(w), Funct3(w), Rs1(w), SignextIimm(w)) == w
  {
  }

  lemma WordP(w: Word)
    ensures EncodeI(Opcode(w), Rd(w), Funct3(w), Rs1(w), Funct12(w)) == w
  {
  }

  lemma WordS(w: Word)
    ensures EncodeS(Opcode(w), Funct3(w), Rs1(w), Rs2(w), SignextSimm(w)) == w & 0x7FFFFFFF
  {
  }

  lemma TopBit(w: Word)
    ensures w & 0x7FFF_FFFF == w <==> w <= 0x7FFF_FFFF
  {
  }

  lemma WordB(w: Word)
    ensures EncodeB(Opcode(w), Funct3(w), Rs1(w), Rs2(w), SignextBimm(w)) == w
  {
  }

  lemma WordU(w: Word)
    ensures EncodeU(Opcode(w), Rd(w), Upper(w)) == w
  {
  }

  lemma WordJ(w: Word)
    ensures EncodeJ(Opcode(w), Rd(w), SignextJimm(w)) == w
  {
  }

  // The word gives the fields back; the immediate survives exactly if it fits its format.

  predicate Small(opcode: Word, rd: Word, funct3: Word, rs1: Word, rs2: Word, funct7: Word) {
    opcode <= 0x7F && rd <= 0x1F && funct3 <= 7 && rs1 <= 0x1F && rs2 <= 0x1F && funct7 <= 0x7F
  }

  predicate FitsShift(imm: Word) { imm <= 0x1F }

  /** Twelve bits, sign-extended. */
  predicate FitsI(imm: Word) { imm <= 0x7FF || imm >= 0xFFFF_F800 }

  /** Negative offsets do not fit: the sign is not written. */
  predicate FitsS(imm: Word) { imm <= 0x7FF }

  predicate FitsB(imm: Word) { imm & 1 == 0 && (imm <= 0xFFF || imm >= 0xFFFF_F000) }

  predicate FitsU(imm: Word) { imm <= 0xF_FFFF }

  /** The table writes the offset of `JAL` as an upper immediate; these offsets are read back
      as a jump offset unchanged. */
  predicate FitsJalTable(imm: Word) { imm == 0 || imm == 0x2_2222 || imm == 0x4_4444 || imm == 0x6_6666 }

  predicate FitsJ(imm: Word) { imm & 1 == 0 && (imm <= 0xF_FFFF || imm >= 0xFFF0_0000) }

  lemma FieldsR(opcode: Word, rd: Word, funct3: Word, rs1: Word, rs2: Word, funct7: Word)
    requires Small(opcode, rd, funct3, rs1, rs2, funct7)
    ensures var w := EncodeR(opcode, rd, funct3, rs1, rs2, funct7);
      && Opcode(w) == opcode && Rd(w) == rd && Funct3(w) == funct3 && Rs1(w) == rs1 && Rs2(w) == rs2
      && Funct7(w) == funct7
  {
  }

  lemma FieldsShift(opcode: Word, rd: Word, funct3: Word, rs1: Word, imm: Word, funct7: Word)
    requires Small(opcode, rd, funct3, rs1, 0, funct7)
    ensures var w := EncodeShift(opcode, rd, funct3, rs1, imm, funct7);
      && Opcode(w) == opcode && Rd(w) == rd && Funct3(w) == funct3 && Rs1(w) == rs1 && Funct7(w) == funct7
      && Rs2(w) == imm & 0x1F && (Rs2(w) == imm <==> FitsShift(imm))
  {
  }

  /** Sign extension of a field whose sign bit is `sign`; `ones` are the bits above it. */
  function Extended(field: Word, sign: Word, ones: Word): Word {
    if field & sign == 0 then field else field | ones
  }

  /** An I immediate comes back cut to its low 12 bits and sign-extended. */
  lemma ComesBackI(opcode: Word, rd: Word, funct3: Word, rs1: Word, imm: Word)
    requires Small(opcode, rd, funct3, rs1, 0, 0)
    ensures SignextIimm(EncodeI(opcode, rd, funct3, rs1, imm)) == Extended(imm & 0xFFF, 0x800, 0xFFFF_F000)
  {
  }

  lemma FixedI(imm: Word)
    ensures Extended(imm & 0xFFF, 0x800, 0xFFFF_F000) == imm <==> FitsI(imm)
  {
  }

  lemma ImmediateI(opcode: Word, rd: Word, funct3: Word, rs1: Word, imm: Word)
    requires Small(opcode, rd, funct3, rs1, 0, 0)
    ensures SignextIimm(EncodeI(opcode, rd, funct3, rs1, imm)) == imm <==> FitsI(imm)
  {
    hide EncodeI, SignextIimm, FitsI, Extended;
    ComesBackI(opcode, rd, funct3, rs1, imm);
    FixedI(imm);
  }

  lemma FieldsI(opcode: Word, rd: Word, funct3: Word, rs1: Word, imm: Word)
    requires Small(opcode, rd, funct3, rs1, 0, 0)
    ensures var w := EncodeI(opcode, rd, funct3, rs1, imm);
      && Opcode(w) == opcode && Rd(w) == rd && Funct3(w) == funct3 && Rs1(w) == rs1
      && (imm <= 0xFFF ==> Funct12(w) == imm)
  {
  }

  lemma FieldsS(opcode: Word, funct3: Word, rs1: Word, rs2: Word, imm: Word)
    requires Small(opcode, 0, funct3, rs1, rs2, 0)
    ensures var w := EncodeS(opcode, funct3, rs1, rs2, imm);
      && Opcode(w) == opcode && Funct3(w) == funct3 && Rs1(w) == rs1 && Rs2(w) == rs2
      && (SignextSimm(w) == imm <==> FitsS(imm))
  {
  }

  /** A store offset comes back cut to its low 11 bits. */
  lemma ComesBackS(opcode: Word, funct3: Word, rs1: Word, rs2: Word, imm: Word)
    requires Small(opcode, 0, funct3, rs1, rs2, 0)
    ensures SignextSimm(EncodeS(opcode, funct3, rs1, rs2, imm)) == imm & 0x7FF
  {
  }

  /** A branch offset comes back cut to its low 13 bits without bit 0, and sign-extended. */
  lemma ComesBackB(opcode: Word, funct3: Word, rs1: Word, rs2: Word, imm: Word)
    requires Small(opcode, 0, funct3, rs1, rs2, 0)
    ensures SignextBimm(EncodeB(opcode, funct3, rs1, rs2, imm)) == Extended(imm & 0x1FFE, 0x1000, 0xFFFF_E000)
  {
  }

  lemma FixedB(imm: Word)
    ensures Extended(imm & 0x1FFE, 0x1000, 0xFFFF_E000) == imm <==> FitsB(imm)
  {
  }

  lemma ImmediateB(opcode: Word, funct3: Word, rs1: Word, rs2: Word, imm: Word)
    requires Small(opcode, 0, funct3, rs1, rs2, 0)
    ensures SignextBimm(EncodeB(opcode, funct3, rs1, rs2, imm)) == imm <==> FitsB(imm)
  {
    hide EncodeB, SignextBimm, FitsB, Extended;
    ComesBackB(opcode, funct3, rs1, rs2, imm);
    FixedB(imm);
  }

  lemma FieldsB(opcode: Word, funct3: Word, rs1: Word, rs2: Word, imm: Word)
    requires Small(opcode, 0, funct3, rs1, rs2, 0)
    ensures var w := EncodeB(opcode, funct3, rs1, rs2, imm);
      && Opcode(w) == opcode && Funct3(w) == funct3 && Rs1(w) == rs1 && Rs2(w) == rs2
  {
  }

  lemma FieldsU(opcode: Word, rd: Word, imm: Word)
    requires Small(opcode, rd, 0, 0, 0, 0)
    ensures var w := EncodeU(opcode, rd, imm);
      Opcode(w) == opcode && Rd(w) == rd && (Upper(w) == imm <==> FitsU(imm))
  {
  }

  /** An upper immediate comes back cut to its low 20 bits. */
  lemma ComesBackU(opcode: Word, rd: Word, imm: Word)
    requires Small(opcode, rd, 0, 0, 0, 0)
    ensures Upper(EncodeU(opcode, rd, imm)) == imm & 0xF_FFFF
  {
  }

  lemma ComesBackPositiveJ(opcode: Word, rd: Word, imm: Word)
    requires Small(opcode, rd, 0, 0, 0, 0) && imm & 0x10_0000 == 0
    ensures SignextJimm(EncodeJ(opcode, rd, imm)) == imm & 0xF_FFFE
  {
  }

  lemma ComesBackNegativeJ(opcode: Word, rd: Word, imm: Word)
    requires Small(opcode, rd, 0, 0, 0, 0) && imm & 0x10_0000 == 0x10_0000
    ensures SignextJimm(EncodeJ(opcode, rd, imm)) == (imm & 0xF_FFFE) | 0xFFF0_0000
  {
  }

  lemma FieldJ(imm: Word)
    ensures imm & 0x10_0000 == 0 ==> Extended(imm & 0x1F_FFFE, 0x10_0000, 0xFFE0_0000) == imm & 0xF_FFFE
    ensures imm & 0x10_0000 != 0 ==>
      imm & 0x10_0000 == 0x10_0000
      && Extended(imm & 0x1F_FFFE, 0x10_0000, 0xFFE0_0000) == (imm & 0xF_FFFE) | 0xFFF0_0000
  {
  }

  /** A jump offset comes back cut to its low 21 bits without bit 0, and sign-extended. */
  lemma ComesBackJ(opcode: Word, rd: Word, imm: Word)
    requires Small(opcode, rd, 0, 0, 0, 0)
    ensures SignextJimm(EncodeJ(opcode, rd, imm)) == Extended(imm & 0x1F_FFFE, 0x10_0000, 0xFFE0_0000)
  {
    hide EncodeJ, SignextJimm, Extended, Small;
    FieldJ(imm);
    if imm & 0x10_0000 == 0 {
      ComesBackPositiveJ(opcode, rd, imm);
    } else {
      ComesBackNegativeJ(opcode, rd, imm);
    }
  }

  lemma KeepsPositiveJ(imm: Word)
    requires imm & 1 == 0 && imm <= 0xF_FFFF
    ensures imm & 0x10_0000 == 0 && imm & 0xF_FFFE == imm
  {
  }

  lemma KeepsNegativeJ(imm: Word)
    requires imm & 1 == 0 && imm >= 0xFFF0_0000
    ensures imm & 0x10_0000 != 0 && (imm & 0xF_FFFE) | 0xFFF0_0000 == imm
  {
  }

  lemma KeepsJ(imm: Word)
    requires FitsJ(imm)
    ensures Extended(imm & 0x1F_FFFE, 0x10_0000, 0xFFE0_0000) == imm
  {
    hide Extended;
    FieldJ(imm);
    if imm <= 0xF_FFFF {
      KeepsPositiveJ(imm);
    } else {
      KeepsNegativeJ(imm);
    }
  }

  lemma KeptJ(imm: Word)
    requires Extended(imm & 0x1F_FFFE, 0x10_0000, 0xFFE0_0000) == imm
    ensures FitsJ(imm)
  {
  }

  lemma FixedJ(imm: Word)
    ensures Extended(imm & 0x1F_FFFE, 0x10_0000, 0xFFE0_0000) == imm <==> FitsJ(imm)
  {
    hide Extended, FitsJ;
    if FitsJ(imm) {
      KeepsJ(imm);
    } else if Extended(imm & 0x1F_FFFE, 0x10_0000, 0xFFE0_0000) == imm {
      KeptJ(imm);
    }
  }

  lemma ImmediateJ(opcode: Word, rd: Word, imm: Word)
    requires Small(opcode, rd, 0, 0, 0, 0)
    ensures SignextJimm(EncodeJ(opcode, rd, imm)) == imm <==> FitsJ(imm)
  {
    hide EncodeJ, SignextJimm, FitsJ, Extended;
    ComesBackJ(opcode, rd, imm);
    FixedJ(imm);
  }

  lemma FieldsJ(opcode: Word, rd: Word, imm: Word)
    requires Small(opcode, rd, 0, 0, 0, 0)
    ensures Opcode(EncodeJ(opcode, rd, imm)) == opcode && Rd(EncodeJ(opcode, rd, imm)) == rd
  {
  }

  lemma KeepsJal(opcode: Word, rd: Word, imm: Word)
    requires Small(opcode, rd, 0, 0, 0, 0) && FitsJalTable(imm)
    ensures SignextJimm(EncodeU(opcode, rd, imm)) == imm
  {
  }

  lemma KeptJal(opcode: Word, rd: Word, imm: Word)
    requires Small(opcode, rd, 0, 0, 0, 0) && SignextJimm(EncodeU(opcode, rd, imm)) == imm
    ensures FitsJalTable(imm)
  {
  }

  /** Of all offsets, four survive being written in the wrong format. */
  lemma ImmediateJal(opcode: Word, rd: Word, imm: Word)
    requires Small(opcode, rd, 0, 0, 0, 0)
    ensures SignextJimm(EncodeU(opcode, rd, imm)) == imm <==> FitsJalTable(imm)
  {
    hide EncodeU, SignextJimm, FitsJalTable;
    if FitsJalTable(imm) {
      KeepsJal(opcode, rd, imm);
    } else if SignextJimm(EncodeU(opcode, rd, imm)) == imm {
      KeptJal(opcode, rd, imm);
    }
  }
}
