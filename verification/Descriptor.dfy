/**
 The compact frame descriptor of the aarch64 fast backtrace: how a DWARF rule
 table is packed into it, and what it remembers of one unwind step.
 */
module Descriptor {
  import opened Machine

  const FP: int := 29
  const LR: int := 30
  const SP: int := 31

  /** How one column of a DWARF rule table says its register is found. */
  datatype Where =
    | Undef
    | Same
    | CfaRel(val: word)
    | Reg(val: word)
    | Expr(val: word)
    | ValExpr(val: word)
    | IsCfa

  datatype RuleTable = RuleTable(
    retAddrColumn: word,
    cfa: Where,            // the CFA register column
    cfaOffset: word,       // the CFA offset column
    fp: Where,
    lr: Where,
    sp: Where)

  datatype FrameType = Standard | Sigreturn | Other | Guessed

  datatype Frame = Frame(
    virtualAddress: word,
    frameType: FrameType,
    lastFrame: bool,
    cfaRegSp: bool,
    cfaRegOffset: int,     // the four offsets are 30-bit signed fields
    fpCfaOffset: int,
    lrCfaOffset: int,
    spCfaOffset: int)

  const EMPTY_FRAME: Frame := Frame(0, Other, true, true, 0, -1, -1, -1)

  const HALF_FIELD: int := 0x2000_0000

  /** What a 30-bit signed bit-field keeps of a value stored into it. */
  function Field30(x: int): int {
    (x + HALF_FIELD) % 0x4000_0000 - HALF_FIELD
  }

  /** labs on a two's complement machine; the most negative long stays negative. */
  function LongAbs(x: word): int {
    if S64(x) >= 0 then S64(x) else S64(U64(-S64(x)))
  }

  predicate Fits(x: word) {
    LongAbs(x) < HALF_FIELD
  }

  predicate PackableRegister(w: Where) {
    match w
    case Undef | Same | IsCfa => true
    case CfaRel(v) => Fits(v) && U64(v + 1) != 0
    case _ => false
  }

  /** The guard that classifies a rule table as a standard frame. */
  predicate IsStandard(rs: RuleTable) {
    && rs.cfa.Reg?
    && (rs.cfa.val == FP || rs.cfa.val == SP)
    && Fits(rs.cfaOffset)
    && rs.retAddrColumn == LR
    && PackableRegister(rs.fp)
    && PackableRegister(rs.lr)
    && PackableRegister(rs.sp)
  }

  function PackRegister(w: Where, unset: int): int {
    match w
    case CfaRel(v) => Field30(v)
    case IsCfa => 0
    case _ => unset
  }

  function Pack(f: Frame, rs: RuleTable): Frame {
    if f.frameType == Other && IsStandard(rs) then
      f.(frameType := Standard,
         cfaRegSp := rs.cfa.val == SP,
         cfaRegOffset := Field30(rs.cfaOffset),
         fpCfaOffset := PackRegister(rs.fp, f.fpCfaOffset),
         lrCfaOffset := PackRegister(rs.lr, f.lrCfaOffset),
         spCfaOffset := PackRegister(rs.sp, f.spCfaOffset))
    else
      f
  }

  /** The descriptor a cache slot starts from: unknown, nothing saved, not last. */
  function Unknown(pc: word): Frame {
    Frame(pc, Other, false, true, 0, -1, -1, -1)
  }

  // ----- packing loses nothing -----

  /** Where a caller's register is, as the rules say and as a descriptor says. */
  datatype Place = Unsaved | SavedAt(offset: int) | EqualsCfa | Elsewhere

  datatype Layout = Layout(baseIsSp: bool, cfaOffset: int, fp: Place, lr: Place, sp: Place)

  function PlaceOf(w: Where): Place {
    match w
    case Undef | Same => Unsaved
    case CfaRel(v) => SavedAt(S64(v))
    case IsCfa => EqualsCfa
    case _ => Elsewhere
  }

  function LayoutOf(rs: RuleTable): Layout
    requires rs.cfa.Reg?
  {
    Layout(rs.cfa.val == SP, S64(rs.cfaOffset), PlaceOf(rs.fp), PlaceOf(rs.lr), PlaceOf(rs.sp))
  }

  /** The reader's side of the descriptor: -1 means "not saved". */
  function UnpackRegister(field: int): Place {
    if field == -1 then Unsaved else SavedAt(field)
  }

  function Unpack(f: Frame): Layout {
    Layout(f.cfaRegSp, f.cfaRegOffset,
           UnpackRegister(f.fpCfaOffset), UnpackRegister(f.lrCfaOffset), UnpackRegister(f.spCfaOffset))
  }

  predicate InField(x: int) {
    -HALF_FIELD <= x < HALF_FIELD
  }

  /** An offset of exactly -2^63 passes the labs test although it does not fit. */
  predicate MostNegative(w: Where) {
    w.CfaRel? && w.val == TWO_63
  }

  /** The descriptor says where the register is. */
  predicate Restored(w: Where) {
    !w.IsCfa? && !MostNegative(w)
  }

  lemma FieldKeeps(v: word)
    requires Fits(v)
    ensures v != TWO_63 ==> Field30(v) == S64(v) && InField(S64(v))
    ensures v == TWO_63 ==> Field30(v) == 0
  {
  }

  lemma RegisterLossless(w: Where)
    requires PackableRegister(w)
    ensures InField(PackRegister(w, -1))
    ensures UnpackRegister(PackRegister(w, -1)) == PlaceOf(w) <==> Restored(w)
    ensures w.IsCfa? ==> UnpackRegister(PackRegister(w, -1)) == SavedAt(0)
  {
    if w.CfaRel? {
      FieldKeeps(w.val);
      assert S64(w.val) == -1 ==> w.val + 1 == TWO_64;
    }
  }

  /**
   What a standard frame's descriptor gives back of its rules, part by part:
   the base always, each offset unless it is -2^63, and a register's place
   unless the rule is "the register is the CFA".
   */
  lemma PackLossless(pc: word, rs: RuleTable)
    requires IsStandard(rs)
    ensures var f := Pack(Unknown(pc), rs);
      && f.frameType == Standard && f.virtualAddress == pc && !f.lastFrame
      && InField(f.cfaRegOffset) && InField(f.fpCfaOffset)
      && InField(f.lrCfaOffset) && InField(f.spCfaOffset)
    ensures var u, l := Unpack(Pack(Unknown(pc), rs)), LayoutOf(rs);
      && u.baseIsSp == l.baseIsSp
      && (u.cfaOffset == l.cfaOffset <==> rs.cfaOffset != TWO_63)
      && (u.fp == l.fp <==> Restored(rs.fp))
      && (u.lr == l.lr <==> Restored(rs.lr))
      && (u.sp == l.sp <==> Restored(rs.sp))
  {
    FieldKeeps(rs.cfaOffset);
    RegisterLossless(rs.fp);
    RegisterLossless(rs.lr);
    RegisterLossless(rs.sp);
  }

  /** The frame every DWARF reader starts from, SP being the CFA: all the walk needs comes back. */
  lemma OrdinaryFrameLossless(pc: word, rs: RuleTable)
    requires IsStandard(rs) && rs.sp.IsCfa? && rs.cfaOffset != TWO_63 && Restored(rs.fp) && Restored(rs.lr)
    ensures Unpack(Pack(Unknown(pc), rs)) == LayoutOf(rs).(sp := SavedAt(0))
  {
    PackLossless(pc, rs);
    RegisterLossless(rs.sp);
  }

  /** Whatever is not a standard frame leaves the descriptor alone. */
  lemma UnusualFrameKeepsDescriptor(pc: word, rs: RuleTable)
    ensures Pack(Unknown(pc), rs) == Unknown(pc) <==> !IsStandard(rs)
  {
  }

  /** An offset below 2^29 either way, or -2^63, which the test lets through. */
  predicate Offset30(x: int) {
    -0x2000_0000 < x < 0x2000_0000 || x == -0x8000_0000_0000_0000
  }

  /** A rule the descriptor has room for: not saved, the CFA, or saved off it, but not at -1. */
  predicate Roomy(w: Where) {
    match w
    case Undef | Same | IsCfa => true
    case CfaRel(v) => Offset30(S64(v)) && S64(v) != -1
    case Reg(_) | Expr(_) | ValExpr(_) => false
  }

  lemma FitsIff(v: word)
    ensures Fits(v) <==> Offset30(S64(v))
  {
  }

  lemma RoomyIff(w: Where)
    ensures PackableRegister(w) <==> Roomy(w)
  {
    if w.CfaRel? {
      FitsIff(w.val);
      assert U64(w.val + 1) == 0 <==> w.val == TWO_64 - 1;
    }
  }

  /** A frame is standard if its CFA is off x29 or SP, it returns to x30, and its offsets and rules have room. */
  lemma StandardIff(pc: word, rs: RuleTable)
    ensures Pack(Unknown(pc), rs) != Unknown(pc) <==>
      && (rs.cfa == Reg(29) || rs.cfa == Reg(31)) && Offset30(S64(rs.cfaOffset)) && rs.retAddrColumn == 30
      && Roomy(rs.fp) && Roomy(rs.lr) && Roomy(rs.sp)
  {
    FitsIff(rs.cfaOffset);
    RoomyIff(rs.fp);
    RoomyIff(rs.lr);
    RoomyIff(rs.sp);
  }

  // ----- one remembered unwind step -----

  /** What unw_step found at a pc, as far as the descriptor can show it. */
  datatype StepResult =
    | Failed                                                        // negative return
    | EndOfChain                                                    // x29 is 0, returns 0 at once
    | ByRules(rules: RuleTable, ended: bool)                        // DWARF rules; ended: new ip is 0
    | ByScan(plt: bool, baseIsSp: bool, offset: int, ended: bool)   // prologue-scan fallback
    | Signal(contextOffset: int)                                    // sigreturn frame

  function Stashed(f: Frame, r: StepResult): Frame {
    match r
    case Failed | EndOfChain => f
    case ByRules(rules, _) => Pack(f, rules)
    case ByScan(plt, baseIsSp, offset, _) =>
      f.(frameType := if plt then Standard else Guessed,
         cfaRegSp := baseIsSp, cfaRegOffset := Field30(offset))
    case Signal(off) =>
      f.(frameType := Sigreturn, cfaRegOffset := Field30(off))
  }

  /** The sign of unw_step's return value. */
  function StepReturn(r: StepResult): int {
    match r
    case Failed => -1
    case EndOfChain => 0
    case ByRules(_, ended) => if ended then 0 else 1
    case ByScan(_, _, _, ended) => if ended then 0 else 1
    case Signal(_) => 1
  }

  /** A step that leaves loc[X30] where it was. */
  predicate KeepsX30(r: StepResult) {
    r.EndOfChain? || (r.ByRules? && r.rules.lr.Same?)
  }

  /** The descriptor of the frame at pc. */
  function Describe(pc: word, r: StepResult): (f: Frame)
    ensures f.virtualAddress == pc
    ensures f.lastFrame <==> StepReturn(r) == 0
  {
    Stashed(Unknown(pc), r).(lastFrame := StepReturn(r) == 0)
  }

  /** The part of the unwind cursor the fast trace shares with unw_step. */
  class Cursor {
    var frameInfo: Frame
    var x30: Option<word>      // what dwarf_get would load through loc[X30]
    var usePrevInstr: bool

    constructor (x30: Option<word>, usePrevInstr: bool)
      ensures this.x30 == x30 && this.usePrevInstr == usePrevInstr
    {
      frameInfo := EMPTY_FRAME;
      this.x30 := x30;
      this.usePrevInstr := usePrevInstr;
    }

    method StashFrame(rs: RuleTable)
      modifies this`frameInfo
      ensures frameInfo == Pack(old(frameInfo), rs)
    {
      if frameInfo.frameType == Other
        && rs.cfa.Reg? && (rs.cfa.val == FP || rs.cfa.val == SP)
        && LongAbs(rs.cfaOffset) < HALF_FIELD
        && rs.retAddrColumn == LR
        && PackableRegister(rs.fp) && PackableRegister(rs.lr) && PackableRegister(rs.sp)
      {
        var f := frameInfo;
        f := f.(frameType := Standard);
        f := f.(cfaRegSp := rs.cfa.val == SP);
        f := f.(cfaRegOffset := Field30(rs.cfaOffset));
        if rs.fp.CfaRel? { f := f.(fpCfaOffset := Field30(rs.fp.val)); }
        if rs.lr.CfaRel? { f := f.(lrCfaOffset := Field30(rs.lr.val)); }
        if rs.sp.CfaRel? { f := f.(spCfaOffset := Field30(rs.sp.val)); }
        if rs.fp.IsCfa? { f := f.(fpCfaOffset := 0); }
        if rs.lr.IsCfa? { f := f.(lrCfaOffset := 0); }
        if rs.sp.IsCfa? { f := f.(spCfaOffset := 0); }
        frameInfo := f;
      }
    }

    /** One unw_step whose outcome is r; unless it keeps loc[X30], left is what can then be loaded there. */
    method UnwStep(r: StepResult, left: Option<word>) returns (ret: int)
      modifies this`frameInfo, this`x30
      ensures ret == StepReturn(r)
      ensures frameInfo == Stashed(old(frameInfo), r)
      ensures x30 == if KeepsX30(r) then old(x30) else left
    {
      match r {
      case Failed => x30 := left;
      case EndOfChain =>
      case ByRules(rules, _) =>
        if !rules.lr.Same? { x30 := left; }
        StashFrame(rules);
      case ByScan(plt, baseIsSp, offset, _) =>
        x30 := left;
        frameInfo := frameInfo.(frameType := if plt then Standard else Guessed,
                                cfaRegSp := baseIsSp, cfaRegOffset := Field30(offset));
      case Signal(off) =>
        x30 := left;
        frameInfo := frameInfo.(frameType := Sigreturn, cfaRegOffset := Field30(off));
      }
      ret := StepReturn(r);
    }

    /** trace_init_addr: describe the frame at pc with one step. */
    method InitAddr(pc: word, r: StepResult, left: Option<word>) returns (f: Frame)
      modifies this`frameInfo, this`x30
      ensures f == Describe(pc, r)
      ensures x30 == if KeepsX30(r) then old(x30) else left
    {
      f := Unknown(pc);
      frameInfo := f;
      var ret := UnwStep(r, left);
      if ret >= 0 {
        f := frameInfo;
      }
      if ret == 0 {
        f := f.(lastFrame := true);
      }
    }
  }
}
