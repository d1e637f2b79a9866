/**
 A small aarch64 machine (SP, x29, x30 and memory) and the soundness of the
 prologue trackers over every straight run of its instructions.
 */
module PrologueRun {
  import opened Machine
  import opened Prologue

  // ----- the machine -----

  datatype Cpu = Cpu(sp: word, fp: word, lr: word, mem: map<word, word>)

  /**
   An executed instruction. The values are those of the other registers it
   names; `writes` is what an instruction of no fixed form does to memory.
   */
  datatype Event = Event(insn: Insn, val: word, val2: word, writes: map<word, word>)

  function Read(mem: map<word, word>, addr: word): word {
    if addr in mem then mem[addr] else 0
  }

  function Held(r: bv32, cpu: Cpu, other: word): word {
    if r == X29 then cpu.fp else if r == X30 then cpu.lr else other
  }

  /** The bytes a pair or register moves its base by, or is away from it. */
  function Displacement(i: Insn): int
    requires i.Pair? || i.Single?
  {
    if i.Pair? then Signed7(i.imm) * 8 else Signed9(i.imm)
  }

  /** Where a load or store off SP finds or puts its registers. */
  function PairAddr(i: Insn, sp: word): word
    requires i.Pair? || i.Single?
  {
    if i.Pair? then (if i.form == PostIndex then sp else U64(sp + Displacement(i)))
    else if i.load then sp else U64(sp + Displacement(i))
  }

  function StoredPair(addr: word, first: word, second: word): map<word, word> {
    map[addr := first][U64(addr + 8) := second]
  }

  /** What register r holds after a pair is loaded from addr. */
  function Loaded(r: bv32, rt: bv32, rt2: bv32, addr: word, cpu: Cpu): word {
    if rt == r then Read(cpu.mem, addr)
    else if rt2 == r then Read(cpu.mem, U64(addr + 8))
    else Held(r, cpu, 0)
  }

  function Writes(e: Event, cpu: Cpu): map<word, word> {
    match e.insn
    case Pair(load, _, rt, rt2, _) =>
      if load then map[]
      else StoredPair(PairAddr(e.insn, cpu.sp), Held(rt, cpu, e.val), Held(rt2, cpu, e.val2))
    case Single(load, rt, _) =>
      if load then map[] else map[PairAddr(e.insn, cpu.sp) := Held(rt, cpu, e.val)]
    case Branch(_) => e.writes
    case Other => e.writes
    case _ => map[]
  }

  function ImmSp(op: ImmOp, n: nat, cpu: Cpu): word {
    match op
    case SubSp => U64(cpu.sp - n)
    case AddSp => U64(cpu.sp + n)
    case SubSpFromFp => U64(cpu.fp - n)
    case AddSpFromFp => U64(cpu.fp + n)
    case AddFpFromSp => cpu.sp
  }

  function NextSp(e: Event, cpu: Cpu): word {
    match e.insn
    case Imm(op, shift, imm) => ImmSp(op, Scaled(shift, imm), cpu)
    case Pair(_, form, _, _, _) =>
      if form == PostIndex || form == PreIndex then U64(cpu.sp + Displacement(e.insn)) else cpu.sp
    case Single(_, _, _) => U64(cpu.sp + Displacement(e.insn))
    case SpByReg(sub, _, _) => if sub then U64(cpu.sp - e.val) else U64(cpu.sp + e.val)
    case _ => cpu.sp
  }

  /** x29 or x30 after the instruction, but for ADD to x29 and calls. */
  function NextHeld(r: bv32, e: Event, cpu: Cpu): word {
    match e.insn
    case Pair(load, _, rt, rt2, _) =>
      if load then Loaded(r, rt, rt2, PairAddr(e.insn, cpu.sp), cpu) else Held(r, cpu, 0)
    case Single(load, rt, _) => if load && rt == r then Read(cpu.mem, PairAddr(e.insn, cpu.sp)) else Held(r, cpu, 0)
    case _ => Held(r, cpu, 0)
  }

  /** MOV or ADD to x29 from SP. */
  predicate SetsLinkPointer(i: Insn) {
    i.Imm? && i.op == AddFpFromSp
  }

  function NextFp(e: Event, cpu: Cpu): word {
    if SetsLinkPointer(e.insn) then U64(cpu.sp + Scaled(e.insn.shift, e.insn.imm)) else NextHeld(X29, e, cpu)
  }

  function NextLr(e: Event, cpu: Cpu): word {
    if e.insn.Branch? && e.insn.link then e.val else NextHeld(X30, e, cpu)
  }

  function Exec(e: Event, cpu: Cpu): Cpu {
    Cpu(NextSp(e, cpu), NextFp(e, cpu), NextLr(e, cpu), cpu.mem + Writes(e, cpu))
  }

  /** The machine after a run. */
  function After(es: seq<Event>, cpu: Cpu): Cpu {
    if es == [] then cpu else Exec(es[|es| - 1], After(es[..|es| - 1], cpu))
  }

  // ----- scanning the words of a run -----

  function ScanSp(code: seq<bv32>): SpTrack {
    if code == [] then SP_START else TrackSp(code[|code| - 1], ScanSp(code[..|code| - 1]))
  }

  function ScanRecord(code: seq<bv32>): FrameState {
    if code == [] then NO_RECORD else TrackRecord(code[|code| - 1], ScanRecord(code[..|code| - 1]))
  }

  /** The run executed exactly the words of the code, in order. */
  ghost predicate Executes(es: seq<Event>, code: seq<bv32>) {
    && |es| == |code|
    && forall k :: 0 <= k < |es| ==> Encodes(code[k], es[k].insn)
  }

  function SpAfter(es: seq<Event>): SpTrack {
    if es == [] then SP_START
    else
      var t := SpAfter(es[..|es| - 1]);
      if t.state == SpUnknown then t else SpEffect(es[|es| - 1].insn, t)
  }

  function RecordAfter(es: seq<Event>): FrameState {
    if es == [] then NO_RECORD else RecordEffect(es[|es| - 1].insn, RecordAfter(es[..|es| - 1]))
  }

  lemma {:induction false} ScanSees(es: seq<Event>, code: seq<bv32>)
    requires Executes(es, code)
    ensures ScanSp(code) == SpAfter(es) && ScanRecord(code) == RecordAfter(es)
  {
    if es != [] {
      var n := |es| - 1;
      ScanSees(es[..n], code[..n]);
      TrackersSee(code[n], es[n].insn, ScanSp(code[..n]), ScanRecord(code[..n]));
    }
  }

  // ----- the stack pointer -----

  /** How far an instruction moves SP that the tracker takes not to move it. */
  function Unseen(e: Event): int {
    match e.insn
    case Pair(load, form, _, _, _) =>
      if form == PostIndex && (!load || PairOfRecord(e.insn)) then Displacement(e.insn)
      else if form == PreIndex && (load || PairOfRecord(e.insn)) then Displacement(e.insn)
      else 0
    case SpByReg(sub, _, _) => if sub then 0 - e.val else 0
    case _ => 0
  }

  function AllUnseen(es: seq<Event>): int {
    if es == [] then 0 else AllUnseen(es[..|es| - 1]) + Unseen(es[|es| - 1])
  }

  /** What an answer other than SP_UNKNOWN says of SP. */
  ghost predicate SpSound(t: SpTrack, entry: word, sp: word, moved: int) {
    && (t.state != SpUnknown ==> sp == U64(entry - t.offset + moved))
    && (t.state == SpAdjusted <==> t.offset > 0) && t.offset >= 0
  }

  lemma DownSound(t: SpTrack, n: int, entry: word, sp: word, moved: int)
    requires t.state != SpUnknown && SpSound(t, entry, sp, moved) && n > 0
    ensures SpSound(Down(t, n), entry, U64(sp - n), moved)
  {
    U64Adds(entry - t.offset + moved, -n);
  }

  lemma UpSound(t: SpTrack, n: int, entry: word, sp: word, moved: int)
    requires t.state != SpUnknown && SpSound(t, entry, sp, moved) && n > 0
    ensures SpSound(Up(t, n), entry, U64(sp + n), moved)
  {
    U64Adds(entry - t.offset + moved, n);
  }

  lemma MovedSound(t: SpTrack, n: int, entry: word, sp: word, moved: int)
    requires t.state != SpUnknown && SpSound(t, entry, sp, moved)
    ensures SpSound(t, entry, U64(sp + n), moved + n)
  {
    U64Adds(entry - t.offset + moved, n);
  }

  lemma MoveEffectSound(load: bool, n: int, t: SpTrack, entry: word, sp: word, moved: int)
    requires t.state != SpUnknown && SpSound(t, entry, sp, moved)
    ensures SpSound(MoveEffect(load, n, t), entry, U64(sp + n), moved)
  {
    if load && n > 0 {
      UpSound(t, n, entry, sp, moved);
    } else if !load && n < 0 {
      DownSound(t, -n, entry, sp, moved);
    }
  }

  lemma ImmStepSound(e: Event, cpu: Cpu, t: SpTrack, entry: word, moved: int)
    requires t.state != SpUnknown && SpSound(t, entry, cpu.sp, moved) && e.insn.Imm?
    ensures SpSound(SpEffect(e.insn, t), entry, NextSp(e, cpu), moved)
  {
    var n := Scaled(e.insn.shift, e.insn.imm);
    if n > 0 && e.insn.op == SubSp {
      DownSound(t, n, entry, cpu.sp, moved);
    } else if n > 0 && e.insn.op == AddSp {
      UpSound(t, n, entry, cpu.sp, moved);
    }
  }

  lemma PairStepSound(e: Event, cpu: Cpu, t: SpTrack, entry: word, moved: int)
    requires t.state != SpUnknown && SpSound(t, entry, cpu.sp, moved) && e.insn.Pair?
    ensures SpSound(SpEffect(e.insn, t), entry, NextSp(e, cpu), moved + Unseen(e))
  {
    MovedSound(t, Displacement(e.insn), entry, cpu.sp, moved);
    MoveEffectSound(e.insn.load, Displacement(e.insn), t, entry, cpu.sp, moved);
  }

  lemma SpStepSound(e: Event, cpu: Cpu, t: SpTrack, entry: word, moved: int)
    requires t.state != SpUnknown && SpSound(t, entry, cpu.sp, moved)
    ensures SpSound(SpEffect(e.insn, t), entry, NextSp(e, cpu), moved + Unseen(e))
  {
    match e.insn
    case Imm(_, _, _) => ImmStepSound(e, cpu, t, entry, moved);
    case Pair(_, _, _, _, _) => PairStepSound(e, cpu, t, entry, moved);
    case Single(load, _, _) => MoveEffectSound(load, Displacement(e.insn), t, entry, cpu.sp, moved);
    case SpByReg(_, _, _) => MovedSound(t, 0 - e.val, entry, cpu.sp, moved);
    case _ =>
  }

  lemma {:induction false} SpTrackerSound(es: seq<Event>, cpu: Cpu)
    ensures SpSound(SpAfter(es), cpu.sp, After(es, cpu).sp, AllUnseen(es))
  {
    if es != [] {
      var was := es[..|es| - 1];
      SpTrackerSound(was, cpu);
      if SpAfter(was).state != SpUnknown {
        SpStepSound(es[|es| - 1], After(was, cpu), SpAfter(was), cpu.sp, AllUnseen(was));
      }
    }
  }

  /** Once lost, the stack pointer stays lost. */
  lemma {:induction false} UnknownAbsorbs(es: seq<Event>, more: seq<Event>)
    requires SpAfter(es).state == SpUnknown
    ensures SpAfter(es + more).state == SpUnknown
  {
    if more == [] {
      assert es + more == es;
    } else {
      UnknownAbsorbs(es, more[..|more| - 1]);
      assert (es + more)[..|es + more| - 1] == es + more[..|more| - 1];
    }
  }

  /** The tracker's answer as its callers read it: UNCHANGED means entry SP, ADJUSTED means entry SP - offset. */
  ghost predicate SpAnswer(t: SpTrack, entry: word, sp: word) {
    match t.state
    case SpUnchanged => sp == entry
    case SpAdjusted => sp == U64(entry - t.offset)
    case SpUnknown => true
  }

  lemma SameWordIff(x: int, k: int)
    ensures U64(x + k) == U64(x) <==> k % TWO_64 == 0
  {
    if U64(x + k) == U64(x) {
      assert x + k == TWO_64 * ((x + k) / TWO_64) + U64(x);
      assert x == TWO_64 * (x / TWO_64) + U64(x);
      assert k == TWO_64 * ((x + k) / TWO_64 - x / TWO_64);
    }
    if k % TWO_64 == 0 {
      assert k == TWO_64 * (k / TWO_64);
      assert x + k == TWO_64 * (x / TWO_64 + k / TWO_64) + U64(x);
    }
  }

  lemma AnswerIff(t: SpTrack, entry: word, sp: word, moved: int)
    requires SpSound(t, entry, sp, moved)
    ensures SpAnswer(t, entry, sp) <==> t.state == SpUnknown || moved % TWO_64 == 0
  {
    SameWordIff(entry - t.offset, moved);
  }

  /** Over any run the scan's answer is right if and only if it is "unknown" or the moves it does not see cancel out. */
  lemma AnswersOfSpTracker(code: seq<bv32>, es: seq<Event>, cpu: Cpu)
    requires Executes(es, code)
    ensures SpAnswer(ScanSp(code), cpu.sp, After(es, cpu).sp) <==>
      ScanSp(code).state == SpUnknown || AllUnseen(es) % TWO_64 == 0
    ensures ScanSp(code).offset > 0 <==> ScanSp(code).state == SpAdjusted
  {
    ScanSees(es, code);
    SpTrackerSound(es, cpu);
    AnswerIff(SpAfter(es), cpu.sp, After(es, cpu).sp, AllUnseen(es));
  }

  lemma UndoneIff(t: SpTrack, entry: word, sp: word, moved: int)
    requires t.state != SpUnknown && SpSound(t, entry, sp, moved)
    ensures U64(sp + t.offset) == entry <==> moved % TWO_64 == 0
  {
    U64Adds(entry - t.offset + moved, t.offset);
    SameWordIff(entry, moved);
  }

  /** The CFA of the link register fallback, which undoes the adjustment, is the entry SP under the same condition. */
  lemma FallbackCfaIsEntrySp(es: seq<Event>, cpu: Cpu)
    requires SpAfter(es).state != SpUnknown
    ensures U64(After(es, cpu).sp + SpAfter(es).offset) == cpu.sp <==> AllUnseen(es) % TWO_64 == 0
  {
    SpTrackerSound(es, cpu);
    UndoneIff(SpAfter(es), cpu.sp, After(es, cpu).sp, AllUnseen(es));
  }

  /** SUB SP, SP, Xm alone: the answer is "unchanged", which is right if and only if Xm holds 0. */
  lemma RegisterSubtractionUnseen(rm: bv32, ext: bv32, x: word, cpu: Cpu)
    ensures var es := [Event(SpByReg(true, rm, ext), x, 0, map[])];
      && SpAfter(es).state == SpUnchanged
      && (SpAnswer(SpAfter(es), cpu.sp, After(es, cpu).sp) <==> x == 0)
  {
    var es := [Event(SpByReg(true, rm, ext), x, 0, map[])];
    assert es[..0] == [];
    SpTrackerSound(es, cpu);
    AnswerIff(SpAfter(es), cpu.sp, After(es, cpu).sp, AllUnseen(es));
  }

  // ----- the frame record -----

  /** The record at addr holds the caller's x29 and return address. */
  ghost predicate RecordAt(addr: word, entry: Cpu, mem: map<word, word>) {
    && addr in mem && mem[addr] == entry.fp
    && U64(addr + 8) in mem && mem[U64(addr + 8)] == entry.lr
  }

  predicate StoresLink(i: Insn) {
    PairOfRecord(i) && !i.load
  }

  predicate LoadsLink(i: Insn) {
    PairOfRecord(i) && i.load
  }

  /**
   Where a run has put its frame record: nowhere, where an STP of x29 and x30 has
   stored it, or where x29 has since been set from SP to point.
   */
  datatype Phase = NoFrame | Stored(addr: word, store: Insn) | Linked(addr: word)

  function NextPhase(e: Event, cpu: Cpu, ph: Phase): Phase {
    match ph
    case NoFrame => if StoresLink(e.insn) then Stored(PairAddr(e.insn, cpu.sp), e.insn) else ph
    case Stored(addr, _) => if SetsLinkPointer(e.insn) then Linked(addr) else ph
    case Linked(_) => if LoadsLink(e.insn) then NoFrame else ph
  }

  /** The phase a run has reached, by the instructions it executed. */
  function PhaseAfter(es: seq<Event>, entry: Cpu): Phase {
    if es == [] then NoFrame
    else
      var was := es[..|es| - 1];
      NextPhase(es[|es| - 1], After(was, entry), PhaseAfter(was, entry))
  }

  /** The instruction leaves the record at addr alone. */
  ghost predicate Spares(e: Event, cpu: Cpu, addr: word) {
    addr !in Writes(e, cpu) && U64(addr + 8) !in Writes(e, cpu)
  }

  /** x29 and x30 are kept while no record holds them. */
  ghost predicate KeepsLink(e: Event, cpu: Cpu) {
    Exec(e, cpu).fp == cpu.fp && Exec(e, cpu).lr == cpu.lr
  }

  /** SP stays put between STP and ADD, and ADD sets x29 to the record. */
  ghost predicate KeepsStored(e: Event, cpu: Cpu, addr: word) {
    && Exec(e, cpu).sp == cpu.sp && Spares(e, cpu, addr)
    && (SetsLinkPointer(e.insn) ==> Exec(e, cpu).fp == addr)
  }

  /** x29 stays at the record until LDP loads x29 and x30 from there. */
  ghost predicate KeepsLinked(e: Event, cpu: Cpu, addr: word) {
    if LoadsLink(e.insn) then PairAddr(e.insn, cpu.sp) == addr
    else Exec(e, cpu).fp == cpu.fp && Spares(e, cpu, addr)
  }

  /** The frame record convention at one instruction. */
  ghost predicate Conforms(e: Event, cpu: Cpu, ph: Phase) {
    match ph
    case NoFrame => KeepsLink(e, cpu)
    case Stored(addr, _) => KeepsStored(e, cpu, addr)
    case Linked(addr) => KeepsLinked(e, cpu, addr)
  }

  ghost predicate Conforming(es: seq<Event>, entry: Cpu) {
    es != [] ==>
      var was := es[..|es| - 1];
      Conforming(was, entry) && Conforms(es[|es| - 1], After(was, entry), PhaseAfter(was, entry))
  }

  /** What a conforming run keeps: the caller's x29 and return address are where the phase says. */
  ghost predicate PhaseHolds(ph: Phase, entry: Cpu, cpu: Cpu) {
    match ph
    case NoFrame => cpu.fp == entry.fp && cpu.lr == entry.lr
    case Stored(addr, store) => RecordAt(addr, entry, cpu.mem) && StoresLink(store)
    case Linked(addr) => cpu.fp == addr && RecordAt(addr, entry, cpu.mem)
  }

  lemma StoreHolds(e: Event, cpu: Cpu, entry: Cpu)
    requires PhaseHolds(NoFrame, entry, cpu) && KeepsLink(e, cpu)
    ensures PhaseHolds(NextPhase(e, cpu, NoFrame), entry, Exec(e, cpu))
  {
  }

  lemma StoredHolds(e: Event, cpu: Cpu, entry: Cpu, ph: Phase)
    requires ph.Stored? && PhaseHolds(ph, entry, cpu) && KeepsStored(e, cpu, ph.addr)
    ensures PhaseHolds(NextPhase(e, cpu, ph), entry, Exec(e, cpu))
  {
  }

  lemma LinkedHolds(e: Event, cpu: Cpu, entry: Cpu, ph: Phase)
    requires ph.Linked? && PhaseHolds(ph, entry, cpu) && KeepsLinked(e, cpu, ph.addr)
    ensures PhaseHolds(NextPhase(e, cpu, ph), entry, Exec(e, cpu))
  {
  }

  lemma {:induction false} ConformingHolds(es: seq<Event>, entry: Cpu)
    requires Conforming(es, entry)
    ensures PhaseHolds(PhaseAfter(es, entry), entry, After(es, entry))
  {
    if es != [] {
      var was := es[..|es| - 1];
      var e, cpu, ph := es[|es| - 1], After(was, entry), PhaseAfter(was, entry);
      ConformingHolds(was, entry);
      match ph
      case NoFrame => StoreHolds(e, cpu, entry);
      case Stored(_, _) => StoredHolds(e, cpu, entry, ph);
      case Linked(_) => LinkedHolds(e, cpu, entry, ph);
    }
  }

  // ----- the record tracker against the phases -----

  function LocOf(ph: Phase): RecordLoc {
    match ph
    case NoFrame => NoRecord
    case Stored(_, _) => AtSpOffset
    case Linked(_) => AtFp
  }

  /** The tracker is in step with every run, conforming or not. */
  lemma {:induction false} TrackerFollowsPhase(es: seq<Event>, entry: Cpu)
    ensures RecordAfter(es).loc == LocOf(PhaseAfter(es, entry))
    ensures !PhaseAfter(es, entry).Stored? ==> RecordAfter(es).offset == 0
  {
    if es != [] {
      TrackerFollowsPhase(es[..|es| - 1], entry);
    }
  }

  /** The tracker knows the offset of stores with pre-index or signed offset, and of those that are not offset. */
  predicate OffsetKnown(i: Insn)
    requires i.Pair?
  {
    i.form == PreIndex || i.form == Offset || Displacement(i) % TWO_64 == 0
  }

  /** Where the record is stored, SP + offset is its address if and only if the store is one the tracker knows. */
  ghost predicate OffsetIff(f: FrameState, ph: Phase, sp: word) {
    ph.Stored? ==> StoresLink(ph.store) && (U64(sp + f.offset) == ph.addr <==> OffsetKnown(ph.store))
  }

  lemma StoreOffsetIff(i: Insn, sp: word, sp': word, offset: int)
    requires StoresLink(i)
    requires offset == if i.form == Offset then Displacement(i) else 0
    requires sp' == if i.form == PostIndex || i.form == PreIndex then U64(sp + Displacement(i)) else sp
    ensures U64(sp' + offset) == PairAddr(i, sp) <==> OffsetKnown(i)
  {
    SameWordIff(sp, Displacement(i));
  }

  lemma OffsetStep(e: Event, cpu: Cpu, ph: Phase, f: FrameState)
    requires Conforms(e, cpu, ph) && f.loc == LocOf(ph) && (!ph.Stored? ==> f.offset == 0)
    requires OffsetIff(f, ph, cpu.sp)
    ensures OffsetIff(RecordEffect(e.insn, f), NextPhase(e, cpu, ph), Exec(e, cpu).sp)
  {
    if ph.NoFrame? && StoresLink(e.insn) {
      StoreOffsetIff(e.insn, cpu.sp, Exec(e, cpu).sp, RecordEffect(e.insn, f).offset);
    }
  }

  lemma {:induction false} OffsetRightIff(es: seq<Event>, entry: Cpu)
    requires Conforming(es, entry)
    ensures OffsetIff(RecordAfter(es), PhaseAfter(es, entry), After(es, entry).sp)
  {
    if es != [] {
      var was := es[..|es| - 1];
      OffsetRightIff(was, entry);
      TrackerFollowsPhase(was, entry);
      OffsetStep(es[|es| - 1], After(was, entry), PhaseAfter(was, entry), RecordAfter(was));
    }
  }

  /** What the frame record tracker's answer says of the machine. */
  ghost predicate RecordSound(f: FrameState, entry: Cpu, cpu: Cpu) {
    match f.loc
    case NoRecord => cpu.fp == entry.fp && cpu.lr == entry.lr
    case AtSpOffset => RecordAt(U64(cpu.sp + f.offset), entry, cpu.mem)
    case AtFp => RecordAt(cpu.fp, entry, cpu.mem)
  }

  /** The record, if stored and not yet linked, was stored as the tracker knows. */
  predicate StoredAsKnown(ph: Phase) {
    ph.Stored? ==> ph.store.Pair? && OffsetKnown(ph.store)
  }

  lemma PhaseIsAnswer(f: FrameState, ph: Phase, entry: Cpu, cpu: Cpu)
    requires PhaseHolds(ph, entry, cpu) && f.loc == LocOf(ph) && OffsetIff(f, ph, cpu.sp) && StoredAsKnown(ph)
    ensures RecordSound(f, entry, cpu)
  {
  }

  lemma RecordTrackerSound(es: seq<Event>, entry: Cpu)
    requires Conforming(es, entry) && StoredAsKnown(PhaseAfter(es, entry))
    ensures RecordSound(RecordAfter(es), entry, After(es, entry))
  {
    ConformingHolds(es, entry);
    TrackerFollowsPhase(es, entry);
    OffsetRightIff(es, entry);
    PhaseIsAnswer(RecordAfter(es), PhaseAfter(es, entry), entry, After(es, entry));
  }

  /** The same of the answer scanned from the words. */
  lemma AnswersOfRecordTracker(code: seq<bv32>, es: seq<Event>, entry: Cpu)
    requires Executes(es, code) && Conforming(es, entry) && StoredAsKnown(PhaseAfter(es, entry))
    ensures RecordSound(ScanRecord(code), entry, After(es, entry))
    ensures ScanRecord(code).loc == LocOf(PhaseAfter(es, entry))
  {
    ScanSees(es, code);
    RecordTrackerSound(es, entry);
    TrackerFollowsPhase(es, entry);
  }

  // ----- stores the tracker does not know -----

  lemma {:induction false} NumberIsZero(field: bv32)
    ensures Number(field) == 0 <==> field == 0
    decreases field
  {
    if field != 0 && field & 1 == 0 {
      NumberIsZero(field >> 1);
    }
  }

  lemma NumberDoubles(field: bv32)
    ensures Number(field) <= 1 + 2 * Number(field >> 1)
  {
  }

  lemma SevenShiftsEmpty(field: bv32)
    requires field & 0x7f == field
    ensures field >> 1 >> 1 >> 1 >> 1 >> 1 >> 1 >> 1 == 0
  {
  }

  lemma NumberBelow(field: bv32)
    requires field & 0x7f == field
    ensures Number(field) < 0x80
  {
    SevenShiftsEmpty(field);
    NumberDoubles(field);
    NumberDoubles(field >> 1);
    NumberDoubles(field >> 1 >> 1);
    NumberDoubles(field >> 1 >> 1 >> 1);
    NumberDoubles(field >> 1 >> 1 >> 1 >> 1);
    NumberDoubles(field >> 1 >> 1 >> 1 >> 1 >> 1);
    NumberDoubles(field >> 1 >> 1 >> 1 >> 1 >> 1 >> 1);
  }

  /** The immediate fields of encodings are numbers of seven bits, zero exactly when the field is. */
  lemma SevenBitField(imm: bv32)
    requires imm & 0x7f == imm
    ensures -0x80 <= Signed7(imm) < 0x80 && (Signed7(imm) == 0 <==> imm == 0)
  {
    NumberIsZero(imm);
    NumberBelow(imm);
  }

  /** So of encoded stores the tracker knows all but post-index and non-temporal ones with an immediate. */
  lemma OffsetKnownIff(w: bv32, i: Insn)
    requires Encodes(w, i) && i.Pair?
    ensures OffsetKnown(i) <==> i.form == PreIndex || i.form == Offset || i.imm == 0
  {
    FieldIsSeven(w, i.imm);
    SevenBitField(i.imm);
    SmallMultiple(Displacement(i));
  }

  lemma FieldIsSeven(w: bv32, imm: bv32)
    requires (w >> 15) & 0x7f == imm
    ensures imm & 0x7f == imm
  {
  }

  lemma SmallMultiple(n: int)
    requires -0x1000 < n < 0x1000
    ensures n % TWO_64 == 0 <==> n == 0
  {
  }

  /** A store alone, on empty memory: the record is at SP + offset if and only if the tracker knows the store. */
  lemma RecordMisplacedIff(i: Insn, entry: Cpu)
    requires StoresLink(i) && entry.mem == map[]
    ensures var es := [Plainly(i)];
      && Conforming(es, entry) && RecordAt(PairAddr(i, entry.sp), entry, After(es, entry).mem)
      && (RecordSound(RecordAfter(es), entry, After(es, entry)) <==> OffsetKnown(i))
  {
    var e := Plainly(i);
    RunOfOne(e, entry);
    StoredOffset(e, entry);
    StoredHere(e, entry);
    NearMiss(PairAddr(i, entry.sp), U64(Exec(e, entry).sp + RecordEffect(i, NO_RECORD).offset), entry, Exec(e, entry).mem);
  }

  lemma StoredOffset(e: Event, cpu: Cpu)
    requires StoresLink(e.insn)
    ensures var f := RecordEffect(e.insn, NO_RECORD);
      f.loc == AtSpOffset && (U64(Exec(e, cpu).sp + f.offset) == PairAddr(e.insn, cpu.sp) <==> OffsetKnown(e.insn))
  {
    StoreOffsetIff(e.insn, cpu.sp, Exec(e, cpu).sp, RecordEffect(e.insn, NO_RECORD).offset);
  }

  lemma StoredHere(e: Event, entry: Cpu)
    requires StoresLink(e.insn) && entry.mem == map[]
    ensures KeepsLink(e, entry) && RecordAt(PairAddr(e.insn, entry.sp), entry, Exec(e, entry).mem)
    ensures Exec(e, entry).mem.Keys == {PairAddr(e.insn, entry.sp), U64(PairAddr(e.insn, entry.sp) + 8)}
  {
  }

  lemma RunOfOne(e: Event, entry: Cpu)
    ensures After([e], entry) == Exec(e, entry) && RecordAfter([e]) == RecordEffect(e.insn, NO_RECORD)
    ensures Conforming([e], entry) <==> KeepsLink(e, entry)
    ensures PhaseAfter([e], entry) == NextPhase(e, entry, NoFrame)
  {
    assert [e][..0] == [];
    assert Conforming([], entry);
  }

  /** Two words stored at one address are a record at no other. */
  lemma NearMiss(addr: word, other: word, entry: Cpu, mem: map<word, word>)
    requires mem.Keys == {addr, U64(addr + 8)} && RecordAt(addr, entry, mem)
    ensures RecordAt(other, entry, mem) <==> other == addr
  {
  }

  // ----- a procedure that keeps the convention -----

  function Plainly(i: Insn): Event {
    Event(i, 0, 0, map[])
  }

  /** STP x29, x30, [SP, #-n]!; MOV x29, SP; LDP x29, x30, [SP], #n */
  function UsualRecord(push: bv32, pop: bv32): seq<Event> {
    [Plainly(Pair(false, PreIndex, X29, X30, push)), Plainly(Imm(AddFpFromSp, false, 0)),
     Plainly(Pair(true, PostIndex, X29, X30, pop))]
  }

  lemma RunGrows(es: seq<Event>, n: nat, entry: Cpu)
    requires n < |es| && Conforming(es[..n], entry)
    ensures After(es[..n + 1], entry) == Exec(es[n], After(es[..n], entry))
    ensures RecordAfter(es[..n + 1]) == RecordEffect(es[n].insn, RecordAfter(es[..n]))
    ensures PhaseAfter(es[..n + 1], entry) == NextPhase(es[n], After(es[..n], entry), PhaseAfter(es[..n], entry))
    ensures AllUnseen(es[..n + 1]) == AllUnseen(es[..n]) + Unseen(es[n])
    ensures Conforms(es[n], After(es[..n], entry), PhaseAfter(es[..n], entry)) ==> Conforming(es[..n + 1], entry)
  {
    assert es[..n + 1][..n] == es[..n];
  }

  lemma UsualPush(push: bv32, cpu: Cpu)
    ensures var e := UsualRecord(push, push)[0];
      && Conforms(e, cpu, NoFrame) && NextPhase(e, cpu, NoFrame) == Stored(Exec(e, cpu).sp, e.insn)
      && Unseen(e) == Signed7(push) * 8
  {
  }

  lemma UsualLink(push: bv32, pop: bv32, cpu: Cpu, ph: Phase)
    requires ph.Stored? && ph.addr == cpu.sp
    ensures var e := UsualRecord(push, pop)[1];
      && Conforms(e, cpu, ph) && NextPhase(e, cpu, ph) == Linked(cpu.sp)
      && Exec(e, cpu).fp == Exec(e, cpu).sp == cpu.sp && Unseen(e) == 0
  {
    assert Scaled(false, 0) == 0;
    U64Adds(cpu.sp, 0);
  }

  lemma UsualPop(push: bv32, pop: bv32, cpu: Cpu)
    requires cpu.fp == cpu.sp
    ensures var e := UsualRecord(push, pop)[2];
      && Conforms(e, cpu, Linked(cpu.sp)) && NextPhase(e, cpu, Linked(cpu.sp)) == NoFrame
      && Unseen(e) == Signed7(pop) * 8
  {
  }

  lemma UsualPrologue(push: bv32, pop: bv32, entry: Cpu)
    ensures var es := UsualRecord(push, pop);
      var cpu := After(es[..2], entry);
      && Conforming(es[..2], entry) && PhaseAfter(es[..1], entry).Stored?
      && PhaseAfter(es[..2], entry) == Linked(cpu.sp) && cpu.fp == cpu.sp
      && AllUnseen(es[..2]) == Signed7(push) * 8
  {
    var es := UsualRecord(push, pop);
    assert es[..0] == [] && Conforming(es[..0], entry);
    UsualPush(push, entry);
    RunGrows(es, 0, entry);
    UsualLink(push, pop, After(es[..1], entry), PhaseAfter(es[..1], entry));
    RunGrows(es, 1, entry);
  }

  /** The usual prologue and epilogue keep the convention, through all three phases, and unseen moves cancel. */
  lemma UsualRecordConforms(push: bv32, pop: bv32, entry: Cpu)
    requires Signed7(pop) == -Signed7(push)
    ensures var es := UsualRecord(push, pop);
      && Conforming(es, entry) && PhaseAfter(es, entry) == NoFrame && AllUnseen(es) == 0
      && PhaseAfter(es[..1], entry).Stored? && PhaseAfter(es[..2], entry).Linked?
  {
    var es := UsualRecord(push, pop);
    UsualPrologue(push, pop, entry);
    UsualPop(push, pop, After(es[..2], entry));
    RunGrows(es, 2, entry);
    assert es[..3] == es;
  }

  // ----- what counts as touching nothing -----

  /** The words of the usual body are among those the architecture has write neither SP, x29 nor x30. */
  lemma BodyIsHarmless()
    ensures Harmless(0xd2800005) && Plain(0xd2800005)      // mov x5, #0
    ensures Harmless(0xa90153f3) && Plain(0xa90153f3)      // stp x19, x20, [sp, #16]
    ensures Harmless(0xa94153f3) && Plain(0xa94153f3)      // ldp x19, x20, [sp, #16]
    ensures Harmless(0xf94013f5) && Plain(0xf94013f5)      // ldr x21, [sp, #32]
    ensures Harmless(0xd503245f) && Plain(0xd503245f)      // bti c
  {
  }

  /** Signing, authenticating and stripping x30 in place change it: such words are not among them. */
  lemma SigningIsNotHarmless(w: bv32)
    requires SignsLink(w) || w & 0xff80001f == 0xf380001f   // the hints, and AUTIASPPC and AUTIBSPPC
    ensures !Harmless(w)
  {
  }

  lemma ImmIsNotHarmless(w: bv32, i: Insn)
    requires Encodes(w, i) && i.Imm?
    ensures !Harmless(w)
  {
  }

  lemma SpByRegIsNotHarmless(w: bv32, i: Insn)
    requires Encodes(w, i) && i.SpByReg?
    ensures !Harmless(w)
  {
  }

  lemma SingleIsNotHarmless(w: bv32, i: Insn)
    requires Encodes(w, i) && i.Single?
    ensures !Harmless(w)
  {
  }

  predicate WritesBack(i: Insn) {
    i.Pair? && (i.form == PostIndex || i.form == PreIndex)
  }

  lemma WriteBackIsNotHarmless(w: bv32, i: Insn)
    requires Encodes(w, i) && WritesBack(i)
    ensures !Harmless(w)
  {
  }

  /** No word that moves SP or sets x29 by one of the modelled forms is among them. */
  lemma MovesAreNotHarmless(w: bv32, i: Insn)
    requires Encodes(w, i) && (i.Imm? || i.SpByReg? || i.Single? || WritesBack(i))
    ensures !Harmless(w)
  {
    if i.Imm? {
      ImmIsNotHarmless(w, i);
    } else if i.SpByReg? {
      SpByRegIsNotHarmless(w, i);
    } else if i.Single? {
      SingleIsNotHarmless(w, i);
    } else {
      WriteBackIsNotHarmless(w, i);
    }
  }

  // ----- the words of a usual procedure -----

  lemma UsualWords()
    ensures Encodes(0xa9bf7bfd, Pair(false, PreIndex, 29, 30, 0x7e))     // stp x29, x30, [sp, #-16]!
    ensures Encodes(0xa9017bfd, Pair(false, Offset, 29, 30, 2))          // stp x29, x30, [sp, #16]
    ensures Encodes(0xa8c17bfd, Pair(true, PostIndex, 29, 30, 2))        // ldp x29, x30, [sp], #16
    ensures Encodes(0x910003fd, Imm(AddFpFromSp, false, 0))              // mov x29, sp
    ensures Encodes(0x910003bf, Imm(AddSpFromFp, false, 0))              // mov sp, x29
    ensures Encodes(0xd10083ff, Imm(SubSp, false, 32))                   // sub sp, sp, #32
    ensures Encodes(0xd14007ff, Imm(SubSp, true, 1))                     // sub sp, sp, #1, lsl #12
  {
  }

  lemma StackWords()
    ensures Encodes(0x910083ff, Imm(AddSp, false, 32))                   // add sp, sp, #32
    ensures Encodes(0xf81f0ff3, Single(false, 19, 0x1f0))                // str x19, [sp, #-16]!
    ensures Encodes(0xf84107f3, Single(true, 19, 16))                    // ldr x19, [sp], #16
    ensures Encodes(0xcb2163ff, SpByReg(true, 1, 0x18))                  // sub sp, sp, x1
  {
  }

  /** What those immediates mean. */
  lemma UsualImmediates()
    ensures Scaled(false, 32) == 32 && Scaled(true, 1) == 0x1000
    ensures Signed7(0x7e) == -2 && Signed7(2) == 2 && Signed9(0x1f0) == -16 && Signed9(16) == 16
  {
    assert Number(2) == 2;
    assert Number(8) == 8 && Number(16) == 16 && Number(32) == 32;
    assert Number(0xf) == 15;
    assert Number(0x3f) == 63 && Number(0x7e) == 126;
    assert Number(0x3e) == 62 && Number(0x7c) == 124 && Number(0x1f0) == 496;
  }

  lemma BranchWords()
    ensures Encodes(0x94000001, Branch(true)) && Encodes(0xd63f0020, Branch(true))      // bl, blr x1
    ensures Encodes(0x14000001, Branch(false)) && Encodes(0xd65f03c0, Branch(false))    // b, ret
    ensures Encodes(0x54000041, Branch(false)) && Encodes(0xb4000040, Branch(false))    // b.ne, cbz x0
    ensures Encodes(0x36000040, Branch(false)) && Encodes(0xd61f0020, Branch(false))    // tbz x0, br x1
  {
  }

  // ----- what the stack pointer tracker does not lose -----

  /** The instruction leaves SP alone, or moves it for the frame record. */
  predicate Quiet(i: Insn) {
    match i
    case Pair(_, form, rt, rt2, _) => (rt == X29 && rt2 == X30) || form == Offset || form == NonTemporal
    case Imm(op, _, _) => op == AddFpFromSp
    case Other => true
    case _ => false
  }

  /** By how much a SUB, or a push of other registers, lowers SP. */
  function Lowered(i: Insn): int {
    match i
    case Imm(op, shift, imm) => if op == SubSp then Scaled(shift, imm) else 0
    case Pair(load, form, rt, rt2, imm) =>
      if !load && form == PreIndex && !(rt == X29 && rt2 == X30) then 0 - Signed7(imm) * 8 else 0
    case Single(load, _, imm) => if load then 0 else 0 - Signed9(imm)
    case _ => 0
  }

  /** By how much an ADD, or a pop of other registers, raises it. */
  function Raised(i: Insn): int {
    match i
    case Imm(op, shift, imm) => if op == AddSp then Scaled(shift, imm) else 0
    case Pair(load, form, rt, rt2, imm) =>
      if load && form == PostIndex && !(rt == X29 && rt2 == X30) then Signed7(imm) * 8 else 0
    case Single(load, _, imm) => if load then Signed9(imm) else 0
    case _ => 0
  }

  lemma MovesAreTheMachines(e: Event, cpu: Cpu)
    ensures Lowered(e.insn) > 0 ==> NextSp(e, cpu) == U64(cpu.sp - Lowered(e.insn))
    ensures Raised(e.insn) > 0 ==> NextSp(e, cpu) == U64(cpu.sp + Raised(e.insn))
  {
  }

  ghost predicate AllQuiet(es: seq<Event>) {
    forall e :: e in es ==> Quiet(e.insn)
  }

  /** Once SP is lowered, branches do not matter either. */
  ghost predicate AllQuietOrBranch(es: seq<Event>) {
    forall e :: e in es ==> Quiet(e.insn) || e.insn.Branch?
  }

  lemma {:induction false} QuietRun(es: seq<Event>, more: seq<Event>)
    requires AllQuiet(more) || (AllQuietOrBranch(more) && SpAfter(es).state == SpAdjusted)
    ensures SpAfter(es + more) == SpAfter(es)
  {
    if more == [] {
      assert es + more == es;
    } else {
      var e, was := more[|more| - 1], more[..|more| - 1];
      assert e in more;
      QuietRun(es, was);
      assert (es + more)[..|es + more| - 1] == es + was && (es + more)[|es + more| - 1] == e;
    }
  }

  lemma OneMore(es: seq<Event>, e: Event)
    ensures SpAfter(es + [e]) == if SpAfter(es).state == SpUnknown then SpAfter(es) else SpEffect(e.insn, SpAfter(es))
  {
    assert (es + [e])[..|es + [e]| - 1] == es;
  }

  /** One lowering of SP is known from there on, through branches and calls too. */
  lemma LoweringIsKnown(before: seq<Event>, e: Event, after: seq<Event>)
    requires AllQuiet(before) && Lowered(e.insn) > 0 && AllQuietOrBranch(after)
    ensures SpAfter(before + [e] + after) == SpTrack(SpAdjusted, Lowered(e.insn))
  {
    QuietStart(before);
    OneMore(before, e);
    QuietRun(before + [e], after);
  }

  /** Raising SP by as much undoes it, and by anything else loses it. */
  lemma RaisingIsKnown(es: seq<Event>, e: Event, after: seq<Event>)
    requires SpAfter(es).state == SpAdjusted && Raised(e.insn) > 0 && AllQuiet(after)
    ensures SpAfter(es + [e] + after) == if Raised(e.insn) == SpAfter(es).offset then SP_START else SP_LOST
  {
    OneMore(es, e);
    QuietRun(es + [e], after);
  }

  /** A branch before SP has moved loses it for good. */
  lemma EarlyBranchLoses(before: seq<Event>, e: Event, after: seq<Event>)
    requires AllQuiet(before) && e.insn.Branch?
    ensures SpAfter(before + [e] + after).state == SpUnknown
  {
    QuietStart(before);
    OneMore(before, e);
    UnknownAbsorbs(before + [e], after);
  }

  lemma QuietStart(es: seq<Event>)
    requires AllQuiet(es)
    ensures SpAfter(es) == SP_START
  {
    QuietRun([], es);
    assert [] + es == es;
  }
}
