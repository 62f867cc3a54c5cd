/** The field tables of omnicomm/message.pb.cc: number, kind, tag constant, width
    constant and has-bit mask of every field, as the generated code carries them. */
module RecReg {
  import opened Messages

  const GENERAL_0: Table := [
    Field(1, UInt32, 8, 1, 0),
    Field(2, UInt32, 16, 1, 0),
    Field(3, Str, 26, 1, 0),
    Field(4, UInt32, 32, 1, 0),
    Field(5, UInt32, 40, 1, 0),
    Field(6, UInt32, 48, 1, 0),
    Field(7, UInt32, 56, 1, 0),
    Field(8, UInt32, 64, 1, 0)]

  const GENERAL_8: Table := [
    Field(9, UInt32, 72, 1, 8),
    Field(10, SInt32, 80, 1, 8),
    Field(11, Str, 90, 1, 8),
    Field(12, SInt32, 96, 1, 8),
    Field(13, SInt32, 104, 1, 8),
    Field(14, SInt32, 112, 1, 8)]

  const GENERAL: Table := GENERAL_0 + GENERAL_8

  const PHOTO: Table := [
    Field(1, UInt32, 8, 1, 0),
    Field(2, UInt32, 16, 1, 0),
    Field(3, UInt32, 24, 1, 0),
    Field(4, Str, 34, 1, 0),
    Field(5, UInt32, 40, 1, 0),
    Field(6, UInt32, 48, 1, 0)]

  const NAV: Table := [
    Field(1, SInt32, 8, 1, 0),
    Field(2, SInt32, 16, 1, 0),
    Field(3, UInt32, 24, 1, 0),
    Field(4, UInt32, 32, 1, 0),
    Field(5, UInt32, 40, 1, 0),
    Field(6, SInt32, 48, 1, 0)]

  const UNI_DT: Table := [
    Field(1, SInt32, 8, 1, 0),
    Field(2, SInt32, 16, 1, 0),
    Field(3, SInt32, 24, 1, 0),
    Field(4, SInt32, 32, 1, 0)]

  const CAN_DT_0: Table := [
    Field(70, UInt32, 560, 2, 0),
    Field(91, UInt32, 728, 2, 0),
    Field(100, UInt32, 800, 2, 0),
    Field(110, UInt32, 880, 2, 0),
    Field(174, UInt32, 1392, 2, 0),
    Field(175, UInt32, 1400, 2, 0),
    Field(182, UInt32, 1456, 2, 0),
    Field(184, UInt32, 1472, 2, 0)]

  const CAN_DT_8: Table := [
    Field(190, UInt32, 1520, 2, 8),
    Field(244, UInt32, 1952, 2, 8),
    Field(245, UInt32, 1960, 2, 8),
    Field(247, UInt32, 1976, 2, 8),
    Field(250, UInt32, 2000, 2, 8),
    Field(521, UInt32, 4168, 2, 8),
    Field(522, UInt32, 4176, 2, 8),
    Field(527, UInt32, 4216, 2, 8)]

  const CAN_DT_16: Table := [
    Field(582, Packed, 4658, 2, 0),
    Field(597, UInt32, 4776, 2, 17),
    Field(598, UInt32, 4784, 2, 17),
    Field(914, UInt32, 7312, 2, 17),
    Field(916, UInt32, 7328, 2, 17),
    Field(928, Packed, 7426, 2, 0),
    Field(1624, UInt32, 12992, 2, 17),
    Field(1821, UInt32, 14568, 2, 17)]

  const CAN_DT_24: Table := [
    Field(1856, UInt32, 14848, 2, 24)]

  const CAN_DT: Table := CAN_DT_0 + CAN_DT_8 + CAN_DT_16 + CAN_DT_24

  const LLS_DT_0: Table := [
    Field(1, SInt32, 8, 1, 0),
    Field(2, UInt32, 16, 1, 0),
    Field(3, SInt32, 24, 1, 0),
    Field(4, SInt32, 32, 1, 0),
    Field(5, UInt32, 40, 1, 0),
    Field(6, SInt32, 48, 1, 0),
    Field(7, SInt32, 56, 1, 0),
    Field(8, UInt32, 64, 1, 0)]

  const LLS_DT_8: Table := [
    Field(9, SInt32, 72, 1, 8),
    Field(10, SInt32, 80, 1, 8),
    Field(11, UInt32, 88, 1, 8),
    Field(12, SInt32, 96, 1, 8),
    Field(13, SInt32, 104, 1, 8),
    Field(14, UInt32, 112, 1, 8),
    Field(15, SInt32, 120, 1, 8),
    Field(16, SInt32, 128, 2, 8)]

  const LLS_DT_16: Table := [
    Field(17, UInt32, 136, 2, 16),
    Field(18, UInt32, 144, 2, 16)]

  const LLS_DT: Table := LLS_DT_0 + LLS_DT_8 + LLS_DT_16

  const LOG: Table := [
    Field(1, Strs, 10, 1, 0)]

  const REC_REG: Table := [
    Field(1, Packed, 10, 1, 0),
    Field(2, Group(GENERAL), 19, 2, 1),
    Field(4, Group(PHOTO), 35, 2, 1),
    Field(5, Group(NAV), 43, 2, 1),
    Field(6, Group(UNI_DT), 51, 2, 1),
    Field(7, Group(CAN_DT), 59, 2, 1),
    Field(8, Group(LLS_DT), 67, 2, 1),
    Field(16, Group(LOG), 131, 4, 1)]

  lemma General0()
    ensures Run(GENERAL_0, 0)
  {
    assert FieldOk(GENERAL_0[0], 0);
    assert FieldOk(GENERAL_0[1], 1);
    assert FieldOk(GENERAL_0[2], 2);
    assert FieldOk(GENERAL_0[3], 3);
    assert FieldOk(GENERAL_0[4], 4);
    assert FieldOk(GENERAL_0[5], 5);
    assert FieldOk(GENERAL_0[6], 6);
    assert FieldOk(GENERAL_0[7], 7);
  }

  lemma General8()
    ensures Run(GENERAL_8, 8)
  {
    assert FieldOk(GENERAL_8[0], 8);
    assert FieldOk(GENERAL_8[1], 9);
    assert FieldOk(GENERAL_8[2], 10);
    assert FieldOk(GENERAL_8[3], 11);
    assert FieldOk(GENERAL_8[4], 12);
    assert FieldOk(GENERAL_8[5], 13);
  }

  lemma GeneralWellFormed()
    ensures WellFormed(GENERAL)
  {
    hide FieldOk;
    General0();
    General8();
    RunAppend(GENERAL_0, GENERAL_8, 0);
  }

  lemma PhotoWellFormed()
    ensures WellFormed(PHOTO)
  {
    assert FieldOk(PHOTO[0], 0);
    assert FieldOk(PHOTO[1], 1);
    assert FieldOk(PHOTO[2], 2);
    assert FieldOk(PHOTO[3], 3);
    assert FieldOk(PHOTO[4], 4);
    assert FieldOk(PHOTO[5], 5);
  }

  lemma NavWellFormed()
    ensures WellFormed(NAV)
  {
    assert FieldOk(NAV[0], 0);
    assert FieldOk(NAV[1], 1);
    assert FieldOk(NAV[2], 2);
    assert FieldOk(NAV[3], 3);
    assert FieldOk(NAV[4], 4);
    assert FieldOk(NAV[5], 5);
  }

  lemma UniDtWellFormed()
    ensures WellFormed(UNI_DT)
  {
    assert FieldOk(UNI_DT[0], 0);
    assert FieldOk(UNI_DT[1], 1);
    assert FieldOk(UNI_DT[2], 2);
    assert FieldOk(UNI_DT[3], 3);
  }

  lemma CanDt0()
    ensures Run(CAN_DT_0, 0)
  {
    assert FieldOk(CAN_DT_0[0], 0);
    assert FieldOk(CAN_DT_0[1], 1);
    assert FieldOk(CAN_DT_0[2], 2);
    assert FieldOk(CAN_DT_0[3], 3);
    assert FieldOk(CAN_DT_0[4], 4);
    assert FieldOk(CAN_DT_0[5], 5);
    assert FieldOk(CAN_DT_0[6], 6);
    assert FieldOk(CAN_DT_0[7], 7);
  }

  lemma CanDt8()
    ensures Run(CAN_DT_8, 8)
  {
    assert FieldOk(CAN_DT_8[0], 8);
    assert FieldOk(CAN_DT_8[1], 9);
    assert FieldOk(CAN_DT_8[2], 10);
    assert FieldOk(CAN_DT_8[3], 11);
    assert FieldOk(CAN_DT_8[4], 12);
    assert FieldOk(CAN_DT_8[5], 13);
    assert FieldOk(CAN_DT_8[6], 14);
    assert FieldOk(CAN_DT_8[7], 15);
  }

  lemma CanDt16()
    ensures Run(CAN_DT_16, 16)
  {
    assert FieldOk(CAN_DT_16[0], 16);
    assert FieldOk(CAN_DT_16[1], 17);
    assert FieldOk(CAN_DT_16[2], 18);
    assert FieldOk(CAN_DT_16[3], 19);
    assert FieldOk(CAN_DT_16[4], 20);
    assert FieldOk(CAN_DT_16[5], 21);
    assert FieldOk(CAN_DT_16[6], 22);
    assert FieldOk(CAN_DT_16[7], 23);
  }

  lemma CanDt24()
    ensures Run(CAN_DT_24, 24)
  {
    assert FieldOk(CAN_DT_24[0], 24);
  }

  lemma CanDtWellFormed()
    ensures WellFormed(CAN_DT)
  {
    hide FieldOk;
    CanDt0();
    CanDt8();
    CanDt16();
    CanDt24();
    RunAppend(CAN_DT_0, CAN_DT_8, 0);
    RunAppend(CAN_DT_0 + CAN_DT_8, CAN_DT_16, 0);
    RunAppend(CAN_DT_0 + CAN_DT_8 + CAN_DT_16, CAN_DT_24, 0);
  }

  lemma LlsDt0()
    ensures Run(LLS_DT_0, 0)
  {
    assert FieldOk(LLS_DT_0[0], 0);
    assert FieldOk(LLS_DT_0[1], 1);
    assert FieldOk(LLS_DT_0[2], 2);
    assert FieldOk(LLS_DT_0[3], 3);
    assert FieldOk(LLS_DT_0[4], 4);
    assert FieldOk(LLS_DT_0[5], 5);
    assert FieldOk(LLS_DT_0[6], 6);
    assert FieldOk(LLS_DT_0[7], 7);
  }

  lemma LlsDt8()
    ensures Run(LLS_DT_8, 8)
  {
    assert FieldOk(LLS_DT_8[0], 8);
    assert FieldOk(LLS_DT_8[1], 9);
    assert FieldOk(LLS_DT_8[2], 10);
    assert FieldOk(LLS_DT_8[3], 11);
    assert FieldOk(LLS_DT_8[4], 12);
    assert FieldOk(LLS_DT_8[5], 13);
    assert FieldOk(LLS_DT_8[6], 14);
    assert FieldOk(LLS_DT_8[7], 15);
  }

  lemma LlsDt16()
    ensures Run(LLS_DT_16, 16)
  {
    assert FieldOk(LLS_DT_16[0], 16);
    assert FieldOk(LLS_DT_16[1], 17);
  }

  lemma LlsDtWellFormed()
    ensures WellFormed(LLS_DT)
  {
    hide FieldOk;
    LlsDt0();
    LlsDt8();
    LlsDt16();
    RunAppend(LLS_DT_0, LLS_DT_8, 0);
    RunAppend(LLS_DT_0 + LLS_DT_8, LLS_DT_16, 0);
  }

  lemma LogWellFormed()
    ensures WellFormed(LOG)
  {
    assert FieldOk(LOG[0], 0);
  }

  /** Every constant in the tables is right: tag, width, mask, and ascending numbers. */
  lemma RecRegWellFormed()
    ensures WellFormed(REC_REG)
  {
    GeneralWellFormed();
    PhotoWellFormed();
    NavWellFormed();
    UniDtWellFormed();
    CanDtWellFormed();
    LlsDtWellFormed();
    LogWellFormed();
    assert FieldOk(REC_REG[0], 0);
    assert FieldOk(REC_REG[1], 1);
    assert FieldOk(REC_REG[2], 2);
    assert FieldOk(REC_REG[3], 3);
    assert FieldOk(REC_REG[4], 4);
    assert FieldOk(REC_REG[5], 5);
    assert FieldOk(REC_REG[6], 6);
    assert FieldOk(REC_REG[7], 7);
  }

  // ----- The kinds of the fields, by number -----

  predicate KindIs(f: Field, signed: set<nat>, text: set<nat>, lists: set<nat>) {
    f.kind ==
    if f.number in signed then SInt32
    else if f.number in text then if f.number in lists then Strs else Str
    else if f.number in lists then Packed
    else UInt32
  }

  predicate KindsAre(t: Table, signed: set<nat>, text: set<nat>, lists: set<nat>) {
    forall i :: 0 <= i < |t| ==> KindIs(t[i], signed, text, lists)
  }

  lemma GeneralKinds()
    ensures KindsAre(GENERAL, {10, 12, 13, 14}, {3, 11}, {})
  {
  }

  lemma PhotoKinds()
    ensures KindsAre(PHOTO, {}, {4}, {})
  {
  }

  lemma NavKinds()
    ensures KindsAre(NAV, {1, 2, 6}, {}, {})
  {
  }

  lemma UniDtKinds()
    ensures KindsAre(UNI_DT, {1, 2, 3, 4}, {}, {})
  {
  }

  lemma CanDtKinds()
    ensures KindsAre(CAN_DT, {}, {}, {582, 928})
  {
  }

  lemma LlsDtKinds()
    ensures KindsAre(LLS_DT, {1, 3, 4, 6, 7, 9, 10, 12, 13, 15, 16}, {}, {})
  {
  }

  lemma LogKinds()
    ensures KindsAre(LOG, {}, {1}, {1})
  {
  }

  /** Which fields are signed, text, or lists; all other numbers are unsigned. */
  lemma KindsOfFields()
    ensures KindsAre(GENERAL, {10, 12, 13, 14}, {3, 11}, {}) && KindsAre(PHOTO, {}, {4}, {})
    ensures KindsAre(NAV, {1, 2, 6}, {}, {}) && KindsAre(UNI_DT, {1, 2, 3, 4}, {}, {})
    ensures KindsAre(CAN_DT, {}, {}, {582, 928}) && KindsAre(LOG, {}, {1}, {1})
    ensures KindsAre(LLS_DT, {1, 3, 4, 6, 7, 9, 10, 12, 13, 15, 16}, {}, {})
    ensures REC_REG[0].number == 1 && REC_REG[0].kind == Packed
  {
    hide KindsAre;
    GeneralKinds();
    PhotoKinds();
    NavKinds();
    UniDtKinds();
    CanDtKinds();
    LlsDtKinds();
    LogKinds();
  }
}
