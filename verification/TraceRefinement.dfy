/**
 The slow walk, stepping frame by frame through DWARF rules as apply_reg_state
 does, and the proof that the fast walk records the same return addresses.
 */
module TraceRefinement {
  import opened Machine
  import opened Locations
  import opened Descriptor
  import opened TraceCache
  import opened FastTrace

  /** The registers of the DWARF cursor that matter to a backtrace. */
  datatype SlowState = SlowState(ip: word, cfa: word, fp: Loc, sp: Loc, x30: Loc, usePrevInstr: bool)

  /** The DWARF rule table in force at each pc. */
  type Rules = word -> RuleTable

  function NewLoc(w: Where, was: Loc, cfa: word): Loc {
    match w
    case Undef => Null
    case Same => was
    case IsCfa => Null                    // aarch64 has no location that is a value
    case CfaRel(v) => Mem(U64(cfa + v))
    case Reg(_) | Expr(_) | ValExpr(_) => Unmodelled
  }

  function CfaBase(mem: Memory, w: Where, st: SlowState): Option<word> {
    if !w.Reg? then None
    else if w.val == SP then Some(st.cfa)      // SP reads as the cursor's CFA, wherever loc[SP] is
    else if w.val == FP then Fetch(mem, st.fp)
    else None
  }

  function NewCfa(mem: Memory, rs: RuleTable, st: SlowState): word
    requires CfaBase(mem, rs.cfa, st).Some?
  {
    U64(CfaBase(mem, rs.cfa, st).value + rs.cfaOffset)
  }

  /** The cursor after the rules are applied, its ip still to be loaded. */
  function Relocated(mem: Memory, rs: RuleTable, st: SlowState): SlowState
    requires CfaBase(mem, rs.cfa, st).Some?
  {
    var cfa := NewCfa(mem, rs, st);
    SlowState(0, cfa, NewLoc(rs.fp, st.fp, cfa), NewLoc(rs.sp, st.sp, cfa), NewLoc(rs.lr, st.x30, cfa), true)
  }

  /** The return address of the relocated cursor; an undefined one is 0. */
  function ReturnAddress(mem: Memory, st: SlowState): Option<word> {
    if st.x30.Null? then Some(0) else Fetch(mem, st.x30)
  }

  /** One unw_step by DWARF rules: what it reports and the cursor it leaves. */
  function SlowStep(mem: Memory, rs: RuleTable, st: SlowState): (r: (StepResult, SlowState)) {
    if Fetch(mem, st.fp) == Some(0) then (EndOfChain, st)
    else if rs.retAddrColumn != LR || CfaBase(mem, rs.cfa, st).None? then (Failed, st)
    else
      var next := Relocated(mem, rs, st);
      match ReturnAddress(mem, next)
      case None => (Failed, st)
      case Some(ip) =>
        if ip == st.ip && next.cfa == st.cfa then (Failed, st)
        else (ByRules(rs, ip == 0), next.(ip := ip))
  }

  function SlowFrame(rules: Rules, mem: Memory, st: SlowState): (StepResult, SlowState) {
    SlowStep(mem, rules(LookupPc(st.ip, st.usePrevInstr)), st)
  }

  /** The return addresses of at most n slow steps, until one does not succeed. */
  function SlowWalk(rules: Rules, mem: Memory, st: SlowState, n: nat): (s: seq<word>)
    decreases n
  {
    if n == 0 then []
    else
      var r := SlowFrame(rules, mem, st);
      if StepReturn(r.0) <= 0 then []
      else [r.1.ip] + SlowWalk(rules, mem, r.1, n - 1)
  }

  /** The addresses before the first one below the lowest pc. */
  function CutBogus(addrs: seq<word>): seq<word> {
    if addrs == [] || addrs[0] < LOWEST_PC then []
    else [addrs[0]] + CutBogus(addrs[1..])
  }

  // ----- when the two walks agree -----

  /** Rules the descriptor can carry, where x30 is only kept while it is still known. */
  predicate Followable(rs: RuleTable, x30Known: bool) {
    && IsStandard(rs)
    && rs.cfaOffset != TWO_63 && !MostNegative(rs.fp) && !MostNegative(rs.lr)
    && (rs.lr.Same? ==> x30Known)
  }

  /** The fast walk can load the FP its descriptor says is saved. */
  predicate FpReadable(mem: Memory, rs: RuleTable, next: SlowState) {
    match rs.fp
    case CfaRel(_) => Fetch(mem, next.fp).Some?
    case IsCfa => Load(mem, next.cfa).Some?
    case _ => true
  }

  /** The oracle knows the step's outcome by its pc alone, and the rules are followable. */
  ghost predicate PcDecides(o: Oracle, rules: Rules, mem: Memory, st: SlowState, x30Known: bool) {
    var pc := LookupPc(st.ip, st.usePrevInstr);
    var r := SlowFrame(rules, mem, st);
    o(pc) == r.0 && (StepReturn(r.0) > 0 ==> Followable(rules(pc), x30Known))
  }

  ghost predicate TraceableFrame(o: Oracle, rules: Rules, mem: Memory, st: SlowState, x30Known: bool) {
    var r := SlowFrame(rules, mem, st);
    && PcDecides(o, rules, mem, st, x30Known)
    && (StepReturn(r.0) > 0 ==> FpReadable(mem, rules(LookupPc(st.ip, st.usePrevInstr)), r.1))
  }

  /** Every frame the slow walk visits above the lowest pc is traceable. */
  ghost predicate Traceable(o: Oracle, rules: Rules, mem: Memory, st: SlowState, x30Known: bool, n: nat)
    decreases n
  {
    n == 0 ||
    (&& TraceableFrame(o, rules, mem, st, x30Known)
     && var r := SlowFrame(rules, mem, st);
        (StepReturn(r.0) > 0 && r.1.ip >= LOWEST_PC ==>
           Traceable(o, rules, mem, r.1, x30Known && rules(LookupPc(st.ip, st.usePrevInstr)).lr.Same?, n - 1)))
  }

  /** The fast walk's registers hold what the slow walk's locations give. */
  ghost predicate Corresponds(mem: Memory, st: WalkState, slow: SlowState, x30Known: bool) {
    && st.pc == slow.ip && st.cfa == slow.cfa && st.sp == slow.cfa && st.lr == 0
    && st.usePrevInstr == slow.usePrevInstr
    && (Fetch(mem, slow.fp).Some? ==> st.fp == Fetch(mem, slow.fp).value)
    && (x30Known ==> st.x30 == Known(Fetch(mem, slow.x30)))
  }

  lemma OffsetModulo(base: int, v: word)
    ensures U64(base + S64(v)) == U64(base + v)
  {
    if v >= TWO_63 {
      assert (base + v - TWO_64) % TWO_64 == (base + v) % TWO_64;
    }
  }

  lemma SavedOffset(w: Where, cfa: word)
    requires PackableRegister(w) && !MostNegative(w) && w.CfaRel?
    ensures PackRegister(w, -1) != -1
    ensures U64(cfa + PackRegister(w, -1)) == U64(cfa + w.val)
  {
    RegisterLossless(w);
    OffsetModulo(cfa, w.val);
  }

  /** A followable frame's descriptor computes the CFA the rules compute. */
  lemma SameCfa(mem: Memory, rs: RuleTable, pc: word, st: WalkState, slow: SlowState, x30Known: bool)
    requires Corresponds(mem, st, slow, x30Known) && Followable(rs, x30Known)
    requires CfaBase(mem, rs.cfa, slow).Some?
    ensures var f := Pack(Unknown(pc), rs);
      U64((if f.cfaRegSp then st.sp else st.fp) + f.cfaRegOffset) == NewCfa(mem, rs, slow)
  {
    PackLossless(pc, rs);
    FieldKeeps(rs.cfaOffset);
    OffsetModulo(CfaBase(mem, rs.cfa, slow).value, rs.cfaOffset);
  }

  /** The place of LR in the descriptor of a followable frame. */
  lemma LrFound(rs: RuleTable, pc: word, cfa: word)
    requires IsStandard(rs) && !MostNegative(rs.lr)
    ensures var f := Pack(Unknown(pc), rs);
      match rs.lr
      case CfaRel(v) => f.lrCfaOffset != -1 && U64(cfa + f.lrCfaOffset) == U64(cfa + v)
      case IsCfa => f.lrCfaOffset == 0
      case _ => f.lrCfaOffset == -1
  {
    if rs.lr.CfaRel? { SavedOffset(rs.lr, cfa); }
  }

  /** The FP the descriptor of a followable frame leads to. */
  lemma FpFound(mem: Memory, rs: RuleTable, pc: word, cfa: word, was: word)
    requires IsStandard(rs) && !MostNegative(rs.fp)
    ensures var f := Pack(Unknown(pc), rs);
      (if f.fpCfaOffset != -1 then Load(mem, U64(cfa + f.fpCfaOffset)) else Some(was)) ==
      match rs.fp
      case CfaRel(v) => Load(mem, U64(cfa + v))
      case IsCfa => Load(mem, cfa)
      case _ => Some(was)
  {
    if rs.fp.CfaRel? { SavedOffset(rs.fp, cfa); }
  }

  /** On a followable frame, the descriptor's step is: load or keep the return address and FP, SP is the CFA. */
  lemma DescriptorStep(mem: Memory, rs: RuleTable, pc: word, st: WalkState, slow: SlowState, x30Known: bool)
    requires Corresponds(mem, st, slow, x30Known) && Followable(rs, x30Known)
    requires CfaBase(mem, rs.cfa, slow).Some?
    requires ReturnAddress(mem, Relocated(mem, rs, slow)).Some?
    requires ReturnAddress(mem, Relocated(mem, rs, slow)).value != 0
    ensures StandardStep(mem, Pack(Unknown(pc), rs), st) ==
      FinishStandard(mem, Pack(Unknown(pc), rs), st, NewCfa(mem, rs, slow),
                     ReturnAddress(mem, Relocated(mem, rs, slow)).value)
  {
    SameCfa(mem, rs, pc, st, slow, x30Known);
    LrFound(rs, pc, NewCfa(mem, rs, slow));
  }

  lemma FinishCorresponds(mem: Memory, rs: RuleTable, pc: word, st: WalkState, slow: SlowState, x30Known: bool, ip: word)
    requires Corresponds(mem, st, slow, x30Known) && Followable(rs, x30Known)
    requires CfaBase(mem, rs.cfa, slow).Some?
    requires FpReadable(mem, rs, Relocated(mem, rs, slow))
    ensures var next := FinishStandard(mem, Pack(Unknown(pc), rs),
                          st.(x30 := if rs.lr.Same? then st.x30 else Moved), NewCfa(mem, rs, slow), ip);
      if ip < LOWEST_PC then next == Stop(Ok)
      else next.Continue? && Corresponds(mem, next.st, Relocated(mem, rs, slow).(ip := ip), x30Known && rs.lr.Same?)
  {
    FpFound(mem, rs, pc, NewCfa(mem, rs, slow), st.fp);
  }

  /** Where the slow step goes on, the fast step goes on to the corresponding state. */
  lemma StepsCorrespond(o: Oracle, rules: Rules, mem: Memory, st: WalkState, slow: SlowState, x30Known: bool)
    requires Corresponds(mem, st, slow, x30Known)
    requires TraceableFrame(o, rules, mem, slow, x30Known)
    requires StepReturn(SlowFrame(rules, mem, slow).0) > 0
    ensures var next := SlowFrame(rules, mem, slow).1;
      var rs := rules(LookupPc(slow.ip, slow.usePrevInstr));
      if next.ip < LOWEST_PC then OneFrame(o, mem, st) == Stop(Ok)
      else
        && OneFrame(o, mem, st).Continue?
        && Corresponds(mem, OneFrame(o, mem, st).st, next, x30Known && rs.lr.Same?)
  {
    var pc := LookupPc(slow.ip, slow.usePrevInstr);
    var rs := rules(pc);
    var next := SlowFrame(rules, mem, slow).1;
    var st' := st.(x30 := if rs.lr.Same? then st.x30 else Moved);
    PackLossless(pc, rs);
    DescriptorStep(mem, rs, pc, st', slow, x30Known && rs.lr.Same?);
    FinishCorresponds(mem, rs, pc, st, slow, x30Known, next.ip);
  }

  /** The FP a descriptor says is saved can be loaded exactly when the rules' slot can. */
  lemma FinishStopsIff(mem: Memory, rs: RuleTable, pc: word, st: WalkState, slow: SlowState, x30Known: bool, ip: word)
    requires Corresponds(mem, st, slow, x30Known) && Followable(rs, x30Known)
    requires CfaBase(mem, rs.cfa, slow).Some?
    ensures FinishStandard(mem, Pack(Unknown(pc), rs), st, NewCfa(mem, rs, slow), ip) == Stop(BadAccess) <==>
      !FpReadable(mem, rs, Relocated(mem, rs, slow))
  {
    FpFound(mem, rs, pc, NewCfa(mem, rs, slow), st.fp);
  }

  /** Where the slow step goes on, an FP slot that cannot be read is all that stops the fast step with an error. */
  lemma StopsForFpIff(o: Oracle, rules: Rules, mem: Memory, st: WalkState, slow: SlowState, x30Known: bool)
    requires Corresponds(mem, st, slow, x30Known)
    requires PcDecides(o, rules, mem, slow, x30Known)
    requires StepReturn(SlowFrame(rules, mem, slow).0) > 0
    ensures OneFrame(o, mem, st) == Stop(BadAccess) <==>
      !FpReadable(mem, rules(LookupPc(slow.ip, slow.usePrevInstr)), SlowFrame(rules, mem, slow).1)
  {
    var pc := LookupPc(slow.ip, slow.usePrevInstr);
    var rs := rules(pc);
    var next := SlowFrame(rules, mem, slow).1;
    var st' := st.(x30 := if rs.lr.Same? then st.x30 else Moved);
    DescribedStep(o, rules, mem, st, slow, x30Known);
    DescriptorStep(mem, rs, pc, st', slow, x30Known && rs.lr.Same?);
    FinishStopsIff(mem, rs, pc, st', slow, x30Known && rs.lr.Same?, next.ip);
    assert FpReadable(mem, rs, Relocated(mem, rs, slow)) == FpReadable(mem, rs, next);
  }

  /** Where the slow step goes on, the fast step is that of the rules' standard descriptor. */
  lemma DescribedStep(o: Oracle, rules: Rules, mem: Memory, st: WalkState, slow: SlowState, x30Known: bool)
    requires Corresponds(mem, st, slow, x30Known)
    requires PcDecides(o, rules, mem, slow, x30Known)
    requires StepReturn(SlowFrame(rules, mem, slow).0) > 0
    ensures var pc := LookupPc(slow.ip, slow.usePrevInstr);
      var rs := rules(pc);
      OneFrame(o, mem, st) ==
        StandardStep(mem, Pack(Unknown(pc), rs), st.(x30 := if rs.lr.Same? then st.x30 else Moved))
  {
    PackLossless(LookupPc(slow.ip, slow.usePrevInstr), rules(LookupPc(slow.ip, slow.usePrevInstr)));
  }

  /** Where the slow step ends the walk, the fast step does too, with an error if the slow step failed. */
  lemma StopsTogether(o: Oracle, rules: Rules, mem: Memory, st: WalkState, slow: SlowState)
    requires st.pc == slow.ip && st.usePrevInstr == slow.usePrevInstr
    requires o(LookupPc(slow.ip, slow.usePrevInstr)) == SlowFrame(rules, mem, slow).0
    requires StepReturn(SlowFrame(rules, mem, slow).0) <= 0
    ensures OneFrame(o, mem, st) == Stop(if SlowFrame(rules, mem, slow).0 == Failed then StopUnwind else Ok)
  {
  }

  lemma SlowUnfolds(rules: Rules, mem: Memory, slow: SlowState, n: nat)
    requires n > 0
    ensures var r := SlowFrame(rules, mem, slow);
      CutBogus(SlowWalk(rules, mem, slow, n)) ==
        if StepReturn(r.0) <= 0 || r.1.ip < LOWEST_PC then []
        else [r.1.ip] + CutBogus(SlowWalk(rules, mem, r.1, n - 1))
  {
    var r := SlowFrame(rules, mem, slow);
    if StepReturn(r.0) > 0 {
      var rest := SlowWalk(rules, mem, r.1, n - 1);
      assert ([r.1.ip] + rest)[1..] == rest;
    }
  }

  /** How a trace of at most n slow steps ends: a step that fails stops the unwinding, any other end is well. */
  function SlowEnd(rules: Rules, mem: Memory, st: SlowState, n: nat): Status
    decreases n
  {
    if n == 0 then Ok
    else
      var r := SlowFrame(rules, mem, st);
      if r.0 == Failed then StopUnwind
      else if StepReturn(r.0) == 0 || r.1.ip < LOWEST_PC then Ok
      else SlowEnd(rules, mem, r.1, n - 1)
  }

  /** The fast walk records the addresses and ends as told. */
  ghost predicate SameWalk(w: Walk, addrs: seq<word>, end: Status) {
    w.addrs == addrs && w.status == end
  }

  lemma SameWalkExtends(w: Walk, addrs: seq<word>, w': Walk, addrs': seq<word>, end: Status, pc: word)
    requires SameWalk(w', addrs', end)
    requires w == Walk([pc] + w'.addrs, w'.status) && addrs == [pc] + addrs'
    ensures SameWalk(w, addrs, end)
  {
  }

  lemma EndUnfolds(rules: Rules, mem: Memory, st: SlowState, n: nat)
    requires n > 0
    ensures var r := SlowFrame(rules, mem, st);
      SlowEnd(rules, mem, st, n) ==
        if r.0 == Failed then StopUnwind
        else if StepReturn(r.0) == 0 || r.1.ip < LOWEST_PC then Ok
        else SlowEnd(rules, mem, r.1, n - 1)
  {
  }

  /** The fast backtrace records exactly the return addresses of the slow walk, and ends in an error exactly where a slow step fails. */
  lemma {:induction false} FastRefinesSlow(o: Oracle, rules: Rules, mem: Memory,
                                           st: WalkState, slow: SlowState, x30Known: bool, n: nat)
    requires Corresponds(mem, st, slow, x30Known)
    requires Traceable(o, rules, mem, slow, x30Known, n)
    ensures SameWalk(FastWalk(o, mem, st, n), CutBogus(SlowWalk(rules, mem, slow, n)), SlowEnd(rules, mem, slow, n))
    decreases n
  {
    if n > 0 {
      var r := SlowFrame(rules, mem, slow);
      if StepReturn(r.0) <= 0 {
        StopsTogether(o, rules, mem, st, slow);
      } else {
        StepsCorrespond(o, rules, mem, st, slow, x30Known);
        if r.1.ip >= LOWEST_PC {
          var st' := OneFrame(o, mem, st).st;
          var rs := rules(LookupPc(slow.ip, slow.usePrevInstr));
          FastRefinesSlow(o, rules, mem, st', r.1, x30Known && rs.lr.Same?, n - 1);
          FastUnfolds(o, mem, st, n);
          SlowUnfolds(rules, mem, slow, n);
          EndUnfolds(rules, mem, slow, n);
          SameWalkExtends(FastWalk(o, mem, st, n), CutBogus(SlowWalk(rules, mem, slow, n)),
                          FastWalk(o, mem, st', n - 1), CutBogus(SlowWalk(rules, mem, r.1, n - 1)),
                          SlowEnd(rules, mem, r.1, n - 1), r.1.ip);
          return;
        }
      }
      FastUnfolds(o, mem, st, n);
      SlowUnfolds(rules, mem, slow, n);
      EndUnfolds(rules, mem, slow, n);
    }
  }

  /** The slow walk's starting point for a trace started at the initial machine context. */
  function SlowStart(ip: word, cfa: word, fp: word, usePrevInstr: bool, x30: Option<word>): SlowState {
    SlowState(ip, cfa, Value(fp), Value(cfa), if x30.Some? then Value(x30.value) else Null, usePrevInstr)
  }

  /** The whole claim at once: from any well-formed cache, the traced addresses are the slow walk's. */
  lemma TraceIsSlowWalk(w: World, rules: Rules, t: Table, alloc: nat -> bool, ip: word, cfa: word, fp: word,
                        usePrevInstr: bool, x30: Option<word>, n: nat)
    requires Inv(t, w.o) && LookupPc(ip, usePrevInstr) != 0
    requires Traceable(w.o, rules, w.mem, SlowStart(ip, cfa, fp, usePrevInstr, x30), true, n)
    ensures var trace := TableWalk(w, t, alloc, Start(ip, cfa, fp, usePrevInstr, x30), n).0;
      var slow := CutBogus(SlowWalk(rules, w.mem, SlowStart(ip, cfa, fp, usePrevInstr, x30), n));
      if trace.status == NoInfo then trace.addrs <= slow
      else trace == Walk(slow, SlowEnd(rules, w.mem, SlowStart(ip, cfa, fp, usePrevInstr, x30), n))
  {
    var st := Start(ip, cfa, fp, usePrevInstr, x30);
    TraceFollows(w, t, alloc, st, n);
    FastRefinesSlow(w.o, rules, w.mem, st, SlowStart(ip, cfa, fp, usePrevInstr, x30), true, n);
    EndIsPredicted(rules, w.mem, SlowStart(ip, cfa, fp, usePrevInstr, x30), n);
  }

  lemma {:induction false} EndIsPredicted(rules: Rules, mem: Memory, st: SlowState, n: nat)
    ensures SlowEnd(rules, mem, st, n) == Ok || SlowEnd(rules, mem, st, n) == StopUnwind
    decreases n
  {
    if n > 0 {
      EndUnfolds(rules, mem, st, n);
      EndIsPredicted(rules, mem, SlowFrame(rules, mem, st).1, n - 1);
    }
  }

  // ----- what a step by rules does -----

  /** A step that goes on moves; it ends the walk with a return address of 0, and the chain with an x29 of 0. */
  lemma StepMoves(mem: Memory, rs: RuleTable, st: SlowState)
    ensures var r := SlowStep(mem, rs, st);
      && (r.0 == EndOfChain <==> Fetch(mem, st.fp) == Some(0))
      && (r.0.ByRules? ==> r.0 == ByRules(rs, r.1.ip == 0) && r.1.usePrevInstr)
      && (r.0.ByRules? ==> r.1.ip != st.ip || r.1.cfa != st.cfa)
      && (!r.0.ByRules? ==> r.1 == st && (r.0 == EndOfChain || r.0 == Failed))
  {
  }

  /** The rules of a procedure that has pushed x29 and x30 in a frame of n bytes. */
  function UsualRules(n: word): RuleTable {
    RuleTable(30, Reg(31), n, CfaRel(U64(0 - n)), CfaRel(U64(8 - n)), IsCfa)
  }

  /** The record at the stack pointer holds the caller's x29 and return address. */
  ghost predicate Pushed(mem: Memory, sp: word, fp: word, lr: word) {
    Load(mem, sp) == Some(fp) && Load(mem, U64(sp + 8)) == Some(lr)
  }

  lemma BackFromCfa(sp: word, n: word)
    ensures U64(U64(sp + n) + U64(0 - n)) == U64(sp + 0) == sp && U64(U64(sp + n) + U64(8 - n)) == U64(sp + 8)
  {
    BackTo(sp, n, 0);
    BackTo(sp, n, 8);
  }

  lemma BackTo(sp: word, n: word, k: int)
    ensures U64(U64(sp + n) + U64(k - n)) == U64(sp + k)
  {
    WordsAdd(sp + n, k - n);
    assert (sp + n) + (k - n) == sp + k;
  }

  lemma WordsAdd(x: int, y: int)
    ensures U64(U64(x) + U64(y)) == U64(x + y)
  {
    U64Adds(x, U64(y));
    U64Adds(y, x);
  }

  /** Such a frame is left to its caller: SP goes up by its size, x29 and the return address come from the record. */
  lemma UsualFrameUnwinds(mem: Memory, st: SlowState, n: word, fp: word, lr: word)
    requires Pushed(mem, st.cfa, fp, lr) && Fetch(mem, st.fp) != Some(0)
    requires lr != st.ip || U64(st.cfa + n) != st.cfa
    ensures var r := SlowStep(mem, UsualRules(n), st);
      && r.0 == ByRules(UsualRules(n), lr == 0)
      && r.1.ip == lr && r.1.cfa == U64(st.cfa + n)
      && Fetch(mem, r.1.fp) == Some(fp) && Fetch(mem, r.1.x30) == Some(lr)
  {
    UsualRelocated(mem, st, n);
    StepTo(mem, UsualRules(n), st, SlowState(0, U64(st.cfa + n), Mem(st.cfa), Null, Mem(U64(st.cfa + 8)), true), lr);
  }

  lemma UsualRelocated(mem: Memory, st: SlowState, n: word)
    ensures CfaBase(mem, UsualRules(n).cfa, st) == Some(st.cfa)
    ensures Relocated(mem, UsualRules(n), st) ==
      SlowState(0, U64(st.cfa + n), Mem(st.cfa), Null, Mem(U64(st.cfa + 8)), true)
  {
    BackFromCfa(st.cfa, n);
  }

  lemma StepTo(mem: Memory, rs: RuleTable, st: SlowState, next: SlowState, ip: word)
    requires Fetch(mem, st.fp) != Some(0) && rs.retAddrColumn == LR && CfaBase(mem, rs.cfa, st).Some?
    requires Relocated(mem, rs, st) == next && ReturnAddress(mem, next) == Some(ip)
    requires ip != st.ip || next.cfa != st.cfa
    ensures SlowStep(mem, rs, st) == (ByRules(rs, ip == 0), next.(ip := ip))
  {
  }

  /** The fast step over a frame that saves LR. */
  lemma SavedStep(mem: Memory, f: Frame, st: WalkState, cfa: word, fp: word, lr: word)
    requires f.frameType == Standard && !f.lastFrame && f.cfaRegSp && U64(st.sp + f.cfaRegOffset) == cfa && st.lr == 0
    requires f.lrCfaOffset != -1 && Load(mem, U64(cfa + f.lrCfaOffset)) == Some(lr)
    requires (if f.fpCfaOffset != -1 then Load(mem, U64(cfa + f.fpCfaOffset)) else Some(st.fp)) == Some(fp)
    ensures FrameStep(mem, f, st) ==
      if lr < 0x4000 then Stop(Ok) else Continue(WalkState(lr, cfa, fp, cfa, 0, true, st.x30))
  {
  }

  /** The fast step over its descriptor does the same. */
  lemma UsualFrameTraced(mem: Memory, pc: word, st: WalkState, n: word, fp: word, lr: word)
    requires Pushed(mem, st.sp, fp, lr) && 16 <= n < 0x2000_0000 && st.lr == 0
    ensures FrameStep(mem, Pack(Unknown(pc), UsualRules(n)), st) ==
      if lr < 0x4000 then Stop(Ok) else Continue(WalkState(lr, U64(st.sp + n), fp, U64(st.sp + n), 0, true, st.x30))
  {
    var rs, cfa := UsualRules(n), U64(st.sp + n);
    var f := Pack(Unknown(pc), rs);
    BackFromCfa(st.sp, n);
    UsualIsStandard(n);
    FieldKeeps(n);
    LrFound(rs, pc, cfa);
    FpFound(mem, rs, pc, cfa, st.fp);
    assert f.cfaRegOffset == n;
    SavedStep(mem, f, st, cfa, fp, lr);
  }

  lemma NegativeFits(k: int)
    requires 0 < k < 0x2000_0000
    ensures Fits(U64(0 - k)) && U64(0 - k) == TWO_64 - k
  {
    assert U64(0 - k) == TWO_64 - k;
    FitsIff(U64(0 - k));
  }

  lemma UsualIsStandard(n: word)
    requires 16 <= n < 0x2000_0000
    ensures IsStandard(UsualRules(n)) && !MostNegative(UsualRules(n).lr) && !MostNegative(UsualRules(n).fp)
  {
    NegativeFits(n);
    NegativeFits(n - 8);
    FitsIff(n);
    assert U64(8 - n) == U64(0 - (n - 8));
    NotLast(TWO_64 - n);
    NotLast(TWO_64 - (n - 8));
  }

  lemma NotLast(v: word)
    requires v < TWO_64 - 1
    ensures U64(v + 1) != 0
  {
  }

  /** What a step by rules leaves to be loaded through loc[X30] is what the trace takes it to be. */
  lemma LinkIsLeft(w: World, rs: RuleTable, pc: word, st: WalkState)
    requires st.x30.Known? && (rs.lr.CfaRel? || rs.lr.Undef? || rs.lr.IsCfa?)
    requires SlowStep(w.mem, rs, SlowStart(st.pc, st.cfa, st.fp, st.usePrevInstr, st.x30.value)).0.ByRules?
    ensures LinkByRules(w, rs, pc, st) ==
      Fetch(w.mem, SlowStep(w.mem, rs, SlowStart(st.pc, st.cfa, st.fp, st.usePrevInstr, st.x30.value)).1.x30)
  {
  }
}
