/** Identities between 32-bit words, written out without names for their parts. */
module InstBits {

  lemma ExtendI(w: bv32)
    ensures
      var value: bv32 := (w >> 20) & 0x7FF;
      var goal: bv32 := ((0 - (w >> 31)) << 11) | ((w >> 20) & 0x7FF);
      if (w >> 31) & 0x1 != 0 then value | 0xFFFF_F800 == goal else value == goal
  {
  }

  lemma ExtendS(w: bv32)
    ensures
      var value: bv32 := ((w >> 7) & 0x1F) | (((w >> 25) & 0x3F) << 5);
      var goal: bv32 := ((0 - (w >> 31)) << 11) | (((w >> 25) & 0x3F) << 5) | ((w >> 7) & 0x1F);
      if (w >> 31) & 0x1 != 0 then value | 0xFFFF_F800 == goal else value == goal
  {
  }

  lemma ExtendB(w: bv32)
    ensures
      var value: bv32 := ((((w >> 8) & 0xF) | (((w >> 25) & 0x3F) << 4)) | (((w >> 7) & 0x1) << 10)) << 1;
      var goal: bv32 := ((0 - (w >> 31)) << 12) | (((w >> 7) & 1) << 11) | (((w >> 25) & 0x3F) << 5)
                      | (((w >> 8) & 0xF) << 1);
      if (w >> 31) & 0x1 != 0 then value | 0xFFFF_F000 == goal else value == goal
  {
  }

  lemma ExtendJ(w: bv32)
    ensures
      var value: bv32 := ((((w >> 21) & 0x3FF) | (((w >> 20) & 0x1) << 10)) | (((w >> 12) & 0xFF) << 11)) << 1;
      var goal: bv32 := ((0 - (w >> 31)) << 20) | (((w >> 12) & 0xFF) << 12) | (((w >> 20) & 1) << 11)
                      | (((w >> 21) & 0x3FF) << 1);
      if (w >> 31) & 0x1 != 0 then value | 0xFFF0_0000 == goal else value == goal
  {
  }
}
