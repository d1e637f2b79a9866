/**
 The frames no DWARF rules describe: those the kernel pushes for a signal
 handler, and those the prologue scan finds.
 */
module OtherFrames {
  import opened Machine
  import opened Locations
  import opened Descriptor
  import opened TraceCache
  import opened FastTrace
  import Prologue
  import Fallback

  // ----- signal frames -----

  /** What the kernel saves of an interrupted machine: fault address, x0 to x30, sp and pc. */
  datatype Interrupted = Interrupted(fault: word, x: seq<word>, sp: word, pc: word)

  /** The words of the saved context, in the kernel's order. */
  function ContextWords(m: Interrupted): seq<word> {
    [m.fault] + m.x + [m.sp, m.pc]
  }

  /** Memory holds the context of the machine as consecutive words from an address. */
  ghost predicate Saved(mem: Memory, at: word, m: Interrupted) {
    |m.x| == 31 && forall k :: 0 <= k < 34 ==> SavedWord(mem, at, m, k)
  }

  ghost predicate SavedWord(mem: Memory, at: word, m: Interrupted, k: nat)
    requires |m.x| == 31 && k < 34
  {
    Load(mem, U64(at + 8 * k)) == Some(ContextWords(m)[k])
  }

  /** A cursor at the interrupted instruction itself. */
  function Resumed(m: Interrupted, x30: LinkRegister): WalkState
    requires |m.x| == 31
  {
    WalkState(m.pc, m.sp, m.x[29], m.sp, m.x[30], false, x30)
  }

  lemma SavedRegisters(mem: Memory, at: word, m: Interrupted)
    requires Saved(mem, at, m)
    ensures Load(mem, U64(at + SC_PC_OFF)) == Some(m.pc) && Load(mem, U64(at + SC_SP_OFF)) == Some(m.sp)
    ensures Load(mem, U64(at + SC_X29_OFF)) == Some(m.x[29]) && Load(mem, U64(at + SC_X30_OFF)) == Some(m.x[30])
  {
    assert SavedWord(mem, at, m, 30) && SavedWord(mem, at, m, 31);
    assert SavedWord(mem, at, m, 32) && SavedWord(mem, at, m, 33);
  }

  /** The step over a signal frame is back at the interrupted machine, whose pc is looked up as it is. */
  lemma SignalFrameIsUndone(mem: Memory, f: Frame, st: WalkState, m: Interrupted)
    requires f.frameType == Sigreturn && !f.lastFrame && Saved(mem, U64(st.cfa + f.cfaRegOffset), m)
    ensures FrameStep(mem, f, st) == if m.pc < 0x4000 then Stop(Ok) else Continue(Resumed(m, st.x30))
    ensures LookupPc(Resumed(m, st.x30).pc, Resumed(m, st.x30).usePrevInstr) == m.pc
  {
    SavedRegisters(mem, U64(st.cfa + f.cfaRegOffset), m);
  }

  /** A frame after it that keeps LR returns to the interrupted x30, wherever loc[X30] is. */
  lemma InterruptedLeafReturns(mem: Memory, g: Frame, m: Interrupted, x30: LinkRegister)
    requires |m.x| == 31 && m.x[30] != 0 && !g.lastFrame && (g.frameType == Standard || g.frameType == Guessed)
    requires g.lrCfaOffset == -1 && g.fpCfaOffset == -1
    ensures FrameStep(mem, g, Resumed(m, x30)) ==
      if m.x[30] < 0x4000 then Stop(Ok)
      else
        var cfa := U64((if g.cfaRegSp then m.sp else m.x[29]) + g.cfaRegOffset);
        Continue(WalkState(m.x[30], cfa, m.x[29], cfa, 0, true, x30))
  {
  }

  /** A walk that comes to a signal frame goes on as one from the interrupted machine. */
  lemma WalkThroughSignal(o: Oracle, mem: Memory, st: WalkState, offset: int, m: Interrupted, n: nat)
    requires o(LookupPc(st.pc, st.usePrevInstr)) == Signal(offset) && InField(offset)
    requires Saved(mem, U64(st.cfa + offset), m) && m.pc >= 0x4000 && n > 0
    ensures var rest := FastWalk(o, mem, Resumed(m, Moved), n - 1);
      FastWalk(o, mem, st, n) == Walk([m.pc] + rest.addrs, rest.status)
  {
    var pc := LookupPc(st.pc, st.usePrevInstr);
    var f := Describe(pc, o(pc));
    assert f.cfaRegOffset == offset;
    SignalFrameIsUndone(mem, f, st.(x30 := Moved), m);
    FastUnfolds(o, mem, st, n);
  }

  // ----- frames found by the prologue scan -----

  /** The cursor trace_init_addr hands to the fallback step. */
  function CursorAt(st: WalkState, plt: bool): Fallback.State
    requires st.x30.Known?
  {
    var link := if st.x30.value.Some? then Value(st.x30.value.value) else Null;
    var locs := seq(Fallback.NUM_PRESERVED_REGS, i requires 0 <= i < Fallback.NUM_PRESERVED_REGS =>
      if i == FP then Value(st.fp) else if i == LR then link
      else if i == SP then Value(st.sp) else if i == Fallback.PC then Value(st.pc) else Null);
    Fallback.State(locs, st.pc, st.cfa, Fallback.Info(if plt then Standard else Guessed, true, 0, -1, -1, -1))
  }

  /** The outcome of the fallback as the trace sees it. */
  function ScanResult(plt: bool, fell: (Fallback.State, Fallback.Outcome)): StepResult {
    ByScan(plt, fell.0.info.cfaRegSp, fell.0.info.cfaRegOffset, fell.1 == Fallback.Finished)
  }

  /** What the fallback step does at a state where the scan found fs. */
  function FellAt(mem: Memory, st: WalkState, plt: bool, fs: Prologue.FrameState): (Fallback.State, Fallback.Outcome)
    requires st.x30.Known?
  {
    Fallback.FellBack(mem, CursorAt(st, plt), fs, st.fp)
  }

  /** The CFA that the fallback goes on to, and the base and offset it notes. */
  ghost predicate Notes(mem: Memory, st: WalkState, fs: Prologue.FrameState, fell: Fallback.State) {
    match fs.loc
    case NoRecord =>
      && fell.cfa == (if fs.offset > 0 then U64(st.cfa + fs.offset) else st.cfa)
      && fell.info.cfaRegSp == (fs.offset > 0) && fell.info.cfaRegOffset == fs.offset
    case AtFp =>
      Load(mem, st.fp) == Some(fell.cfa) && fell.info.cfaRegSp && fell.info.cfaRegOffset == 0
    case AtSpOffset =>
      && Load(mem, U64(st.cfa + fs.offset)) == Some(fell.cfa)
      && fell.info.cfaRegSp && fell.info.cfaRegOffset == fs.offset
  }

  lemma FallbackNotes(mem: Memory, st: WalkState, plt: bool, fs: Prologue.FrameState)
    requires st.x30.Known? && st.sp == st.cfa && InField(fs.offset) && FellAt(mem, st, plt, fs).1 == Fallback.Stepped
    ensures Notes(mem, st, fs, FellAt(mem, st, plt, fs).0)
  {
  }

  /** The state the fast step comes to over a frame the scan found, given the return address the fallback found. */
  function AfterScanned(mem: Memory, pc: word, st: WalkState, plt: bool, fell: (Fallback.State, Fallback.Outcome)): Next {
    FrameStep(mem, Describe(pc, ScanResult(plt, fell)), st.(x30 := Known(Some(fell.0.ip))))
  }

  /** The descriptor of a scanned frame: base and offset, and nothing saved. */
  lemma ScannedStep(mem: Memory, pc: word, st: WalkState, plt: bool, fell: (Fallback.State, Fallback.Outcome))
    requires st.lr == 0 && fell.1 == Fallback.Stepped && fell.0.ip >= 0x4000 && InField(fell.0.info.cfaRegOffset)
    ensures var cfa := U64((if fell.0.info.cfaRegSp then st.sp else st.fp) + fell.0.info.cfaRegOffset);
      AfterScanned(mem, pc, st, plt, fell) ==
        Continue(WalkState(fell.0.ip, cfa, st.fp, cfa, 0, true, Known(Some(fell.0.ip))))
  {
    assert Field30(fell.0.info.cfaRegOffset) == fell.0.info.cfaRegOffset;
  }

  /** The CFA of the fast step: SP or x29, moved by the offset. */
  function ScannedCfa(st: WalkState, fs: Prologue.FrameState): word {
    match fs.loc
    case NoRecord => U64((if fs.offset > 0 then st.sp else st.fp) + fs.offset)
    case AtFp => st.sp
    case AtSpOffset => U64(st.sp + fs.offset)
  }

  lemma NotedStep(mem: Memory, pc: word, st: WalkState, plt: bool, fs: Prologue.FrameState, fell: (Fallback.State, Fallback.Outcome))
    requires st.lr == 0 && InField(fs.offset) && Notes(mem, st, fs, fell.0)
    requires fell.1 == Fallback.Stepped && fell.0.ip >= 0x4000
    ensures AfterScanned(mem, pc, st, plt, fell) ==
      Continue(WalkState(fell.0.ip, ScannedCfa(st, fs), st.fp, ScannedCfa(st, fs), 0, true, Known(Some(fell.0.ip))))
  {
    ScannedStep(mem, pc, st, plt, fell);
  }

  /**
   The fast step over a frame the scan found, with the return address that the
   fallback found. Its CFA is the fallback's where SP was moved and no record
   stored, and otherwise only where the values happen to meet.
   */
  lemma ScannedCfaIff(mem: Memory, pc: word, st: WalkState, plt: bool, fs: Prologue.FrameState)
    requires st.x30.Known? && st.lr == 0 && st.sp == st.cfa && InField(fs.offset)
    requires FellAt(mem, st, plt, fs).1 == Fallback.Stepped && FellAt(mem, st, plt, fs).0.ip >= 0x4000
    ensures var fell := FellAt(mem, st, plt, fs);
      && AfterScanned(mem, pc, st, plt, fell) ==
           Continue(WalkState(fell.0.ip, ScannedCfa(st, fs), st.fp, ScannedCfa(st, fs), 0, true, Known(Some(fell.0.ip))))
      && (ScannedCfa(st, fs) == fell.0.cfa <==>
            match fs.loc
            case NoRecord => fs.offset > 0 || U64(st.fp + fs.offset) == st.cfa
            case AtFp => Load(mem, st.fp) == Some(st.cfa)
            case AtSpOffset => Load(mem, U64(st.cfa + fs.offset)) == Some(U64(st.cfa + fs.offset)))
  {
    FallbackNotes(mem, st, plt, fs);
    NotedStep(mem, pc, st, plt, fs, FellAt(mem, st, plt, fs));
  }
}
