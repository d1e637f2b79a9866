/**
 The aarch64 prologue trackers: two abstract interpreters that read instruction
 words, one following adjustments of SP, the other the frame record.
 */
module Prologue {
  import opened Machine

  // ----- the stack pointer -----

  datatype SpState = SpUnchanged | SpAdjusted | SpUnknown

  datatype SpTrack = SpTrack(state: SpState, offset: int)

  const SP_START: SpTrack := SpTrack(SpUnchanged, 0)
  const SP_LOST: SpTrack := SpTrack(SpUnknown, 0)

  predicate IsBranch(w: bv32) {
    || w & 0x7c000000 == 0x14000000        // B, BL
    || w & 0xff000000 == 0x54000000        // B.cond, BC.cond
    || w & 0x7e000000 == 0x34000000        // CBZ, CBNZ
    || w & 0x7e000000 == 0x36000000        // TBZ, TBNZ
    || w & 0xfe9fc000 == 0xd61f0000        // BR, BLR, RET
    || w & 0xfe9f8000 == 0xd69f0000        // ERET, DRPS
  }

  /** The branches among those that write the return address to x30: BL and BLR. */
  predicate IsCall(w: bv32) {
    w & 0xfc000000 == 0x94000000 || w & 0xfebfc000 == 0xd63f0000
  }

  predicate IsSubSp(w: bv32) { w & 0xff0003ff == 0xd10003ff }      // SUB SP, SP, #imm
  predicate IsAddSp(w: bv32) { w & 0xff0003ff == 0x910003ff }      // ADD SP, SP, #imm
  predicate IsPushPair(w: bv32) { w & 0xffc003e0 == 0xa98003e0 }   // STP Xt1, Xt2, [SP, #imm]!
  predicate IsPopPair(w: bv32) { w & 0xffc003e0 == 0xa8c003e0 }    // LDP Xt1, Xt2, [SP], #imm
  predicate IsPushReg(w: bv32) { w & 0xffe00fe0 == 0xf8000fe0 }    // STR Xt, [SP, #imm]!
  predicate IsPopReg(w: bv32) { w & 0xffe00fe0 == 0xf84007e0 }     // LDR Xt, [SP], #imm
  predicate IsSpFromFp(w: bv32) { w & 0xbf0003ff == 0x910003bf }   // ADD/SUB SP, x29, #imm
  predicate IsSpPlusReg(w: bv32) { w & 0xdfe003ff == 0x8b2003ff }  // ADD SP, SP, Xm

  /** Rt and Rt2 are x29 and x30. */
  predicate NamesRecord(w: bv32) {
    w & 0x1f == 0x1d && (w >> 10) & 0x1f == 0x1e
  }

  /** A field read as an unsigned number. */
  function Number(field: bv32): nat {
    if field == 0 then 0
    else (if field & 1 != 0 then 1 else 0) + 2 * Number(field >> 1)
  }

  /** An immediate of 12 bits, optionally shifted left by 12. */
  function Scaled(shift: bool, imm: bv32): nat {
    if shift then Number(imm) * 0x1000 else Number(imm)
  }

  function Signed7(imm: bv32): int {
    if imm & 0x40 != 0 then Number(imm) - 0x80 else Number(imm)
  }

  function Signed9(imm: bv32): int {
    if imm & 0x100 != 0 then Number(imm) - 0x200 else Number(imm)
  }

  function Imm12(w: bv32): nat {
    Scaled(w & 0x00400000 != 0, (w >> 10) & 0xfff)
  }

  function Imm7(w: bv32): int {
    Signed7((w >> 15) & 0x7f)
  }

  function Imm9(w: bv32): int {
    Signed9((w >> 12) & 0x1ff)
  }

  /** SP goes down by n > 0: only from an unchanged SP is the adjustment known. */
  function Down(t: SpTrack, n: int): SpTrack {
    if t.state == SpUnchanged then SpTrack(SpAdjusted, n) else SP_LOST
  }

  /** SP goes up by n: only the exact undoing of the adjustment is known. */
  function Up(t: SpTrack, n: int): SpTrack {
    if t.state == SpAdjusted && t.offset == n then SP_START else SP_LOST
  }

  function TrackPushPair(w: bv32, t: SpTrack): SpTrack {
    if NamesRecord(w) then t else if Imm7(w) < 0 then Down(t, -Imm7(w) * 8) else SP_LOST
  }

  function TrackPopPair(w: bv32, t: SpTrack): SpTrack {
    if NamesRecord(w) then t else if Imm7(w) > 0 then Up(t, Imm7(w) * 8) else SP_LOST
  }

  /** The pushes and pops, and the moves that lose SP. */
  function TrackMove(w: bv32, t: SpTrack): SpTrack {
    if IsPushPair(w) then TrackPushPair(w, t)
    else if IsPopPair(w) then TrackPopPair(w, t)
    else if IsPushReg(w) then (if Imm9(w) < 0 then Down(t, -Imm9(w)) else SP_LOST)
    else if IsPopReg(w) then (if Imm9(w) > 0 then Up(t, Imm9(w)) else SP_LOST)
    else if IsSpFromFp(w) then SP_LOST
    else if IsSpPlusReg(w) then SP_LOST
    else t
  }

  /** track_stack_pointer */
  function TrackSp(w: bv32, t: SpTrack): SpTrack {
    if t.state == SpUnknown then t
    else if t.state == SpUnchanged && IsBranch(w) then SP_LOST
    else if IsSubSp(w) then (if Imm12(w) == 0 then t else Down(t, Imm12(w)))
    else if IsAddSp(w) then (if Imm12(w) == 0 then t else Up(t, Imm12(w)))
    else TrackMove(w, t)
  }

  // ----- the frame record -----

  datatype RecordLoc = NoRecord | AtSpOffset | AtFp

  datatype FrameState = FrameState(loc: RecordLoc, offset: int)

  const NO_RECORD: FrameState := FrameState(NoRecord, 0)

  predicate StoresRecord(w: bv32) { w & 0xfe407fff == 0xa8007bfd }        // STP x29, x30, [SP ...], any form
  predicate StoresRecordAt(w: bv32) { w & 0xffc07fff == 0xa9007bfd }      // STP x29, x30, [SP, #imm]
  predicate SetsFp(w: bv32) { w & 0xff0003ff == 0x910003fd }              // ADD x29, SP, #imm
  predicate LoadsRecord(w: bv32) { w & 0xfe407fff == 0xa8407bfd }         // LDP x29, x30, [SP ...], any form

  /** track_frame_record */
  function TrackRecord(w: bv32, f: FrameState): FrameState {
    match f.loc
    case NoRecord =>
      if !StoresRecord(w) then f
      else FrameState(AtSpOffset, if StoresRecordAt(w) then Imm7(w) * 8 else 0)
    case AtSpOffset => if SetsFp(w) then FrameState(AtFp, 0) else f
    case AtFp => if LoadsRecord(w) then NO_RECORD else f
  }

  // ----- instructions -----

  const X29: bv32 := 29
  const X30: bv32 := 30
  const X31: bv32 := 31

  datatype ImmOp = SubSp | AddSp | SubSpFromFp | AddSpFromFp | AddFpFromSp

  /** How a pair is addressed off SP: non-temporal, post-index, signed offset, pre-index. */
  datatype Form = NonTemporal | PostIndex | Offset | PreIndex

  /** The instructions a prologue is made of, by their encoding fields. */
  datatype Insn =
    | Imm(op: ImmOp, shift: bool, imm: bv32)
    | Pair(load: bool, form: Form, rt: bv32, rt2: bv32, imm: bv32)
    | Single(load: bool, rt: bv32, imm: bv32)       // STR Xt, [SP, #imm]! or LDR Xt, [SP], #imm
    | SpByReg(sub: bool, rm: bv32, ext: bv32)
    | Branch(link: bool)                            // a call that has returned, or not taken
    | Other                                         // writes neither SP, x29 nor x30

  function ImmBase(op: ImmOp): bv32 {
    match op
    case SubSp => 0xd10003ff
    case AddSp => 0x910003ff
    case SubSpFromFp => 0xd10003bf
    case AddSpFromFp => 0x910003bf
    case AddFpFromSp => 0x910003fd
  }

  function PairBase(load: bool, form: Form): bv32 {
    match form
    case NonTemporal => if load then 0xa84003e0 else 0xa80003e0
    case PostIndex => if load then 0xa8c003e0 else 0xa88003e0
    case Offset => if load then 0xa94003e0 else 0xa90003e0
    case PreIndex => if load then 0xa9c003e0 else 0xa98003e0
  }

  /** An add or subtract immediate with the given opcode and registers; its shift field is 00 or 01. */
  predicate ImmFields(w: bv32, base: bv32, shift: bool, imm: bv32) {
    && w & 0xff8003ff == base
    && (w & 0x00400000 != 0 <==> shift)
    && (w >> 10) & 0xfff == imm
  }

  /** A load or store pair off SP. */
  predicate PairFields(w: bv32, base: bv32, rt: bv32, rt2: bv32, imm: bv32) {
    && w & 0xffc003e0 == base
    && (w >> 15) & 0x7f == imm && (w >> 10) & 0x1f == rt2 && w & 0x1f == rt
  }

  /** A load or store register off SP. */
  predicate RegFields(w: bv32, base: bv32, rt: bv32, imm: bv32) {
    w & 0xffe00fe0 == base && (w >> 12) & 0x1ff == imm && w & 0x1f == rt
  }

  // ----- instructions that write neither SP, x29 nor x30 -----

  /** The word matches none of the masks but those of branches. */
  predicate Plain(w: bv32) {
    && !IsSubSp(w) && !IsAddSp(w) && !IsPushPair(w) && !IsPopPair(w)
    && !IsPushReg(w) && !IsPopReg(w) && !IsSpFromFp(w) && !IsSpPlusReg(w)
    && !StoresRecord(w) && !SetsFp(w) && !LoadsRecord(w)
  }

  predicate IsLink(r: bv32) {
    r == X29 || r == X30
  }

  function Rd(w: bv32): bv32 { w & 0x1f }
  function Rn(w: bv32): bv32 { (w >> 5) & 0x1f }
  function Rt2(w: bv32): bv32 { (w >> 10) & 0x1f }

  /** A base register that may be written back. */
  predicate FreeBase(w: bv32) {
    !IsLink(Rn(w)) && Rn(w) != X31
  }

  /**
   Data processing, immediate; destination 31 is SP for ADD, SUB and the logical
   ones that set no flags, and an extract with it authenticates x30.
   */
  predicate HarmlessImm(w: bv32) {
    && w & 0x1c000000 == 0x10000000 && !IsLink(Rd(w))
    && (Rd(w) == X31 ==>
          && (w & 0x1f000000 == 0x11000000 ==> w & 0x20800000 == 0x20000000)
          && (w & 0x1f800000 == 0x12000000 ==> w & 0x60000000 == 0x60000000)
          && w & 0x1f800000 != 0x13800000)
  }

  /** Data processing, register; destination 31 is SP for extended ADD and SUB and for some of two sources. */
  predicate HarmlessReg(w: bv32) {
    && w & 0x0e000000 == 0x0a000000 && !IsLink(Rd(w))
    && (Rd(w) == X31 ==>
          && (w & 0x1f200000 == 0x0b200000 ==> w & 0x20000000 != 0)
          && w & 0x1fe00000 != 0x1ac00000)
  }

  /** Floating point and vectors: a general destination is never SP. */
  predicate HarmlessVector(w: bv32) {
    w & 0x0e000000 == 0x0e000000 && !IsLink(Rd(w))
  }

  /** Load and store pair: bit 23 writes the base back, bit 22 loads, bit 26 names vectors. */
  predicate HarmlessPair(w: bv32) {
    && w & 0x3a000000 == 0x28000000
    && (w & 0x00800000 != 0 ==> FreeBase(w))
    && (w & 0x04400000 == 0x00400000 ==> !IsLink(Rd(w)) && !IsLink(Rt2(w)))
  }

  /** Load and store register; atomics and authenticated loads are left out. */
  predicate HarmlessSingle(w: bv32) {
    && w & 0x3a000000 == 0x38000000
    && (w & 0x01200000 == 0x00200000 ==> w & 0x00000c00 == 0x00000800)
    && (w & 0x01000400 == 0x00000400 ==> FreeBase(w))
    && (w & 0x04000000 == 0 && w & 0x00c00000 != 0 ==> !IsLink(Rd(w)))
  }

  /** Loads from near the pc, and vector structures, whose bit 23 writes the base back. */
  predicate HarmlessLoad(w: bv32) {
    || (w & 0x3b000000 == 0x18000000 && (w & 0x04000000 == 0 ==> !IsLink(Rd(w))))
    || (w & 0xbe000000 == 0x0c000000 && (w & 0x00800000 != 0 ==> FreeBase(w)))
  }

  /** The hints that sign or authenticate x30 in place, PACIAZ to AUTIBSP and XPACLRI. */
  predicate SignsLink(w: bv32) {
    w & 0xffffff1f == 0xd503231f || w == 0xd50320ff
  }

  /** Other hints, barriers, and reads of a system register. */
  predicate HarmlessSystem(w: bv32) {
    || (w & 0xffffe01f == 0xd503201f && !SignsLink(w))
    || (w & 0xfff00000 == 0xd5300000 && !IsLink(Rd(w)))
  }

  /** The architecture has the word write neither SP, x29 nor x30; what is not surely so is left out. */
  predicate Harmless(w: bv32) {
    || HarmlessImm(w) || HarmlessReg(w) || HarmlessVector(w) || HarmlessPair(w)
    || HarmlessSingle(w) || HarmlessLoad(w) || HarmlessSystem(w)
  }

  /** The word w is the encoding of the instruction. */
  predicate Encodes(w: bv32, i: Insn) {
    match i
    case Imm(op, shift, imm) => ImmFields(w, ImmBase(op), shift, imm)
    case Pair(load, form, rt, rt2, imm) => PairFields(w, PairBase(load, form), rt, rt2, imm)
    case Single(load, rt, imm) => RegFields(w, if load then 0xf84007e0 else 0xf8000fe0, rt, imm)
    case SpByReg(sub, rm, ext) =>
      w & 0xffe003ff == (if sub then 0xcb2003ff else 0x8b2003ff) && (w >> 16) & 0x1f == rm && (w >> 10) & 0x3f == ext
    case Branch(link) => IsBranch(w) && (link <==> IsCall(w))
    case Other => Plain(w) && !IsBranch(w) && Harmless(w)
  }

  // ----- what the trackers see of an encoding -----

  predicate PairOfRecord(i: Insn) {
    i.Pair? && i.rt == X29 && i.rt2 == X30
  }

  function ImmEffect(op: ImmOp, n: nat, t: SpTrack): SpTrack {
    match op
    case SubSp => if n == 0 then t else Down(t, n)
    case AddSp => if n == 0 then t else Up(t, n)
    case SubSpFromFp | AddSpFromFp => SP_LOST
    case AddFpFromSp => t
  }

  /** A push or pop by n bytes, n negative for a push. */
  function MoveEffect(load: bool, n: int, t: SpTrack): SpTrack {
    if load then (if n > 0 then Up(t, n) else SP_LOST) else if n < 0 then Down(t, -n) else SP_LOST
  }

  /** What track_stack_pointer should make of an instruction: only pre-index stores and post-index loads move SP for it. */
  function SpEffect(i: Insn, t: SpTrack): SpTrack {
    match i
    case Imm(op, shift, imm) => ImmEffect(op, Scaled(shift, imm), t)
    case Pair(load, form, rt, rt2, imm) =>
      if PairOfRecord(i) || form != (if load then PostIndex else PreIndex) then t
      else MoveEffect(load, Signed7(imm) * 8, t)
    case Single(load, _, imm) => MoveEffect(load, Signed9(imm), t)
    case SpByReg(sub, _, _) => if sub then t else SP_LOST
    case Branch(_) => if t.state == SpUnchanged then SP_LOST else t
    case Other => t
  }

  /** What track_frame_record should make of an instruction. */
  function RecordEffect(i: Insn, f: FrameState): FrameState {
    match f.loc
    case NoRecord =>
      if PairOfRecord(i) && !i.load then FrameState(AtSpOffset, if i.form == Offset then Signed7(i.imm) * 8 else 0)
      else f
    case AtSpOffset => if i.Imm? && i.op == AddFpFromSp then FrameState(AtFp, 0) else f
    case AtFp => if PairOfRecord(i) && i.load then NO_RECORD else f
  }

  /** Both trackers make of the word what they should make of the instruction. */
  ghost predicate Seen(w: bv32, i: Insn, t: SpTrack, f: FrameState) {
    TrackSp(w, t) == (if t.state == SpUnknown then t else SpEffect(i, t)) && TrackRecord(w, f) == RecordEffect(i, f)
  }

  lemma ImmSeen(w: bv32, i: Insn, t: SpTrack, f: FrameState)
    requires i.Imm? && Encodes(w, i)
    ensures Seen(w, i, t, f)
  {
  }

  lemma StorePairSeen(w: bv32, i: Insn, t: SpTrack, f: FrameState)
    requires i.Pair? && !i.load && Encodes(w, i)
    ensures Seen(w, i, t, f)
  {
  }

  lemma LoadPairSeen(w: bv32, i: Insn, t: SpTrack, f: FrameState)
    requires i.Pair? && i.load && Encodes(w, i)
    ensures Seen(w, i, t, f)
  {
  }

  lemma SingleSeen(w: bv32, i: Insn, t: SpTrack, f: FrameState)
    requires i.Single? && Encodes(w, i)
    ensures Seen(w, i, t, f)
  {
  }

  lemma SpByRegSeen(w: bv32, i: Insn, t: SpTrack, f: FrameState)
    requires i.SpByReg? && Encodes(w, i)
    ensures Seen(w, i, t, f)
  {
  }

  lemma BranchIsPlain(w: bv32)
    requires IsBranch(w)
    ensures Plain(w)
  {
  }

  lemma PlainUntracked(w: bv32, t: SpTrack, f: FrameState)
    requires Plain(w)
    ensures TrackSp(w, t) == if t.state == SpUnchanged && IsBranch(w) then SP_LOST else t
    ensures TrackRecord(w, f) == f
  {
  }

  lemma PlainSeen(w: bv32, i: Insn, t: SpTrack, f: FrameState)
    requires (i.Branch? && IsBranch(w)) || (i.Other? && Plain(w) && !IsBranch(w))
    ensures Seen(w, i, t, f)
  {
    if i.Branch? {
      BranchIsPlain(w);
    }
    PlainUntracked(w, t, f);
  }

  /** The masks recognise each instruction for what it is. */
  lemma TrackersSee(w: bv32, i: Insn, t: SpTrack, f: FrameState)
    requires Encodes(w, i)
    ensures Seen(w, i, t, f)
  {
    if i.Imm? {
      ImmSeen(w, i, t, f);
    } else if i.Pair? {
      if i.load {
        LoadPairSeen(w, i, t, f);
      } else {
        StorePairSeen(w, i, t, f);
      }
    } else if i.Single? {
      SingleSeen(w, i, t, f);
    } else if i.SpByReg? {
      SpByRegSeen(w, i, t, f);
    } else {
      PlainSeen(w, i, t, f);
    }
  }
}
