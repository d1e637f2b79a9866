/**
 What the unwind bytecode does to the stack as a whole: the stack pointer moves
 by the sum of the instructions' sizes, and the registers recorded lie in
 disjoint slots of the part it has moved over.
 */
module ExidxStack {
  import opened Machine
  import opened Base128
  import opened ExidxDecode
  import opened ExidxTable

  /** How far an instruction moves the stack pointer. */
  function Size(op: Instruction): int
    requires Valid(op)
  {
    match op
    case VspAdd(x) => 4 * x + 4
    case VspSub(x) => -(4 * x + 4)
    case VspAddUleb(digits) => 0x204 + 4 * Payload(digits)
    case PopHigh(_) | PopRange(_, _) | PopLow(_) => 4 * PoppedBelow(op, CORE_REGS)
    case PopDFstmx(_, c) => 8 * (c + 1) + 4
    case PopD8Fstmx(c) => 8 * (c + 1) + 4
    case PopD16(_, c) => 8 * (c + 1)
    case PopD(_, c) => 8 * (c + 1)
    case PopD8(c) => 8 * (c + 1)
    case PopWr10(c) => 8 * (c + 1)
    case PopWr(_, c) => 8 * (c + 1)
    case PopWcgr(mask) => 4 * BitCount(mask, 4)
    case _ => 0
  }

  /** It neither stops the unwinding nor reloads the stack pointer. */
  predicate Plain(op: Instruction) {
    !op.RefuseToUnwind? && !op.Spare? && !op.VspFrom? && !Pops(op, 13)
  }

  predicate AllValid(ops: seq<Instruction>) {
    forall op :: op in ops ==> Valid(op)
  }

  predicate AllPlain(ops: seq<Instruction>) {
    forall op :: op in ops ==> Plain(op)
  }

  /** Plain instructions that only pop. */
  predicate AllPop(ops: seq<Instruction>) {
    forall op :: op in ops ==> Plain(op) && !op.VspSub?
  }

  function TotalSize(ops: seq<Instruction>): int
    requires AllValid(ops)
  {
    if ops == [] then 0 else Size(ops[0]) + TotalSize(ops[1..])
  }

  /** The state when FINISH is reached. */
  function Unwound(mem: Memory, ops: seq<Instruction>, st: State): Option<State>
    requires AllValid(ops)
  {
    if ops == [] then Some(st)
    else
      match Apply(mem, st, CommandOf(ops[0]))
      case None => None
      case Some(st') => Unwound(mem, ops[1..], st')
  }

  lemma {:induction false} RunFinishesUnwound(mem: Memory, ops: seq<Instruction>, st: State)
    requires AllValid(ops)
    ensures Run(mem, ops, st).Done? <==> Unwound(mem, ops, st).Some?
    ensures Unwound(mem, ops, st).Some? ==>
      Run(mem, ops, st) == Done(Apply(mem, Unwound(mem, ops, st).value, Finish).value)
  {
    if ops != [] {
      match Apply(mem, st, CommandOf(ops[0]))
      case None =>
      case Some(st') => RunFinishesUnwound(mem, ops[1..], st');
    }
  }

  lemma StepMovesBySize(mem: Memory, op: Instruction, st: State)
    requires Valid(op) && Plain(op)
    ensures Apply(mem, st, CommandOf(op)).Some?
    ensures Apply(mem, st, CommandOf(op)).value.cfa == U32(st.cfa + Size(op))
  {
    if PopsCore(op) {
      CorePopEffect(mem, op, st);
    } else if PopsVfp(op) {
      VfpMoves(mem, op, st);
    } else {
      OtherMoves(mem, op, st);
    }
  }

  lemma VfpMoves(mem: Memory, op: Instruction, st: State)
    requires Valid(op) && PopsVfp(op)
    ensures Apply(mem, st, CommandOf(op)).Some?
    ensures Apply(mem, st, CommandOf(op)).value.cfa == U32(st.cfa + Size(op))
  {
    VfpPopEffect(mem, op, st);
  }

  lemma OtherMoves(mem: Memory, op: Instruction, st: State)
    requires Valid(op) && Plain(op) && !PopsCore(op) && !PopsVfp(op)
    ensures Apply(mem, st, CommandOf(op)).Some?
    ensures Apply(mem, st, CommandOf(op)).value.cfa == U32(st.cfa + Size(op))
  {
    OtherEffects(mem, op, st);
  }

  /** Without vsp = r[n] and without popping r13, the CFA moves by the sum of the sizes. */
  lemma {:induction false} CfaMovesByTotalSize(mem: Memory, ops: seq<Instruction>, st: State)
    requires AllValid(ops) && AllPlain(ops)
    ensures Unwound(mem, ops, st).Some?
    ensures Unwound(mem, ops, st).value.cfa == U32(st.cfa + TotalSize(ops))
  {
    if ops == [] {
      assert st.cfa % TWO_32 == st.cfa;
    } else {
      StepMovesBySize(mem, ops[0], st);
      var st' := Apply(mem, st, CommandOf(ops[0])).value;
      CfaMovesByTotalSize(mem, ops[1..], st');
      U32Adds(st.cfa + Size(ops[0]), TotalSize(ops[1..]));
    }
  }

  // ----- the recorded slots -----

  function Width(r: nat): nat {
    if r < CORE_REGS then 4 else 8
  }

  predicate Records(op: Instruction, r: nat)
    requires Valid(op)
  {
    || (r < CORE_REGS && Pops(op, r))
    || (PopsVfp(op) && S0 + RecordedFrom(op) <= r <= S0 + (RecordedFrom(op) + CountD(op)))
  }

  function Recorded(op: Instruction): set<nat>
    requires Valid(op)
  {
    set r: nat | r < S0 + 64 && Records(op, r)
  }

  function AllRecorded(ops: seq<Instruction>): set<nat>
    requires AllValid(ops)
  {
    if ops == [] then {} else Recorded(ops[0]) + AllRecorded(ops[1..])
  }

  /** Register r has a slot inside [lo, hi). */
  predicate Inside(loc: map<nat, word32>, r: nat, lo: int, hi: int) {
    r in loc && lo <= loc[r] && loc[r] + Width(r) <= hi
  }

  predicate Apart(loc: map<nat, word32>, r: nat, q: nat)
    requires r in loc && q in loc
  {
    loc[r] + Width(r) <= loc[q] || loc[q] + Width(q) <= loc[r]
  }

  /** The registers of regs have pairwise disjoint slots inside [lo, hi). */
  ghost predicate Slots(loc: map<nat, word32>, regs: set<nat>, lo: int, hi: int) {
    && (forall r :: r in regs ==> Inside(loc, r, lo, hi))
    && (forall r, q :: r in regs && q in regs && r != q ==> Apart(loc, r, q))
  }

  lemma {:induction false} RanksAscend(op: Instruction, r: nat, q: nat)
    requires r <= q
    ensures PoppedBelow(op, r) <= PoppedBelow(op, q)
    ensures r < q && Pops(op, r) ==> PoppedBelow(op, r) + 1 <= PoppedBelow(op, q)
    decreases q - r
  {
    if r < q {
      RanksAscend(op, r, q - 1);
    }
  }

  lemma CoreSlots(op: Instruction, before: map<nat, word32>, after: map<nat, word32>, start: word32)
    requires Valid(op) && PopsCore(op) && CoreRecorded(op, before, after, start)
    requires start + 4 * PoppedBelow(op, CORE_REGS) < TWO_32
    ensures Slots(after, Recorded(op), start, start + 4 * PoppedBelow(op, CORE_REGS))
  {
    forall r | r in Recorded(op)
      ensures Inside(after, r, start, start + 4 * PoppedBelow(op, CORE_REGS))
      ensures after[r] == start + 4 * PoppedBelow(op, r)
    {
      assert CoreSlot(op, before, after, r, start);
      RanksAscend(op, r, CORE_REGS);
    }
    forall r, q | r in Recorded(op) && q in Recorded(op) && r != q
      ensures Apart(after, r, q)
    {
      if r < q { RanksAscend(op, r, q); } else { RanksAscend(op, q, r); }
    }
  }

  lemma VfpSlots(op: Instruction, before: map<nat, word32>, after: map<nat, word32>, start: word32)
    requires Valid(op) && PopsVfp(op)
    requires VfpRecorded(before, after, S0 + RecordedFrom(op), S0 + (RecordedFrom(op) + CountD(op)), start)
    requires start + 8 * (CountD(op) + 1) < TWO_32
    ensures Slots(after, Recorded(op), start, start + 8 * (CountD(op) + 1))
  {
    var base := S0 + RecordedFrom(op);
    forall r | r in Recorded(op)
      ensures Inside(after, r, start, start + 8 * (CountD(op) + 1))
      ensures after[r] == start + 8 * (r - base)
    {
      assert InDoubleSlot(after, r, base, start);
    }
  }

  /** Everything an instruction does not record stays where it was. */
  lemma UnrecordedKept(mem: Memory, op: Instruction, st: State, r: nat)
    requires Valid(op) && Plain(op) && r !in Recorded(op)
    ensures Apply(mem, st, CommandOf(op)).Some?
    ensures SameLoc(st.loc, Apply(mem, st, CommandOf(op)).value.loc, r)
  {
    StepMovesBySize(mem, op, st);
    var after := Apply(mem, st, CommandOf(op)).value.loc;
    if PopsCore(op) {
      CorePopEffect(mem, op, st);
      assert CoreSlot(op, st.loc, after, r, st.cfa);
    } else if PopsVfp(op) {
      VfpPopEffect(mem, op, st);
    } else {
      OtherEffects(mem, op, st);
    }
  }

  lemma StepSlots(mem: Memory, op: Instruction, st: State)
    requires Valid(op) && Plain(op) && !op.VspSub? && st.cfa + Size(op) < TWO_32
    ensures Size(op) >= 0
    ensures Apply(mem, st, CommandOf(op)).Some?
    ensures Slots(Apply(mem, st, CommandOf(op)).value.loc, Recorded(op), st.cfa, st.cfa + Size(op))
  {
    var after := Apply(mem, st, CommandOf(op));
    if PopsCore(op) {
      CorePopEffect(mem, op, st);
      CoreSlots(op, st.loc, after.value.loc, st.cfa);
    } else if PopsVfp(op) {
      VfpPopEffect(mem, op, st);
      VfpSlots(op, st.loc, after.value.loc, st.cfa);
    } else {
      OtherEffects(mem, op, st);
      assert Recorded(op) == {};
    }
  }

  /** Slots recorded below mid stay disjoint from new ones between mid and hi. */
  lemma SlotsExtend(before: map<nat, word32>, after: map<nat, word32>, old': set<nat>, new': set<nat>,
                    lo: int, mid: int, hi: int)
    requires lo <= mid <= hi
    requires Slots(before, old', lo, mid) && Slots(after, new', mid, hi)
    requires forall r: nat :: r !in new' ==> SameLoc(before, after, r)
    ensures Slots(after, old' + new', lo, hi)
  {
    forall r | r in old' + new' ensures Inside(after, r, lo, hi) {
      if r !in new' {
        assert SameLoc(before, after, r) && Inside(before, r, lo, mid);
      } else {
        assert Inside(after, r, mid, hi);
      }
    }
    forall r, q | r in old' + new' && q in old' + new' && r != q ensures Apart(after, r, q) {
      if r !in new' {
        assert SameLoc(before, after, r) && Inside(before, r, lo, mid);
      } else {
        assert Inside(after, r, mid, hi);
      }
      if q !in new' {
        assert SameLoc(before, after, q) && Inside(before, q, lo, mid);
      } else {
        assert Inside(after, q, mid, hi);
      }
      if r !in new' && q !in new' {
        assert Apart(before, r, q);
      }
    }
  }

  lemma OneMoreIsDisjoint(mem: Memory, op: Instruction, st: State, regs: set<nat>, lo: int)
    requires Valid(op) && Plain(op) && !op.VspSub? && lo <= st.cfa && Slots(st.loc, regs, lo, st.cfa)
    requires st.cfa + Size(op) < TWO_32
    ensures Apply(mem, st, CommandOf(op)).Some?
    ensures var st' := Apply(mem, st, CommandOf(op)).value;
      st.cfa <= st'.cfa == st.cfa + Size(op) && Slots(st'.loc, regs + Recorded(op), lo, st'.cfa)
  {
    StepMovesBySize(mem, op, st);
    StepSlots(mem, op, st);
    var st' := Apply(mem, st, CommandOf(op)).value;
    forall r: nat | r !in Recorded(op) ensures SameLoc(st.loc, st'.loc, r) {
      UnrecordedKept(mem, op, st, r);
    }
    SlotsExtend(st.loc, st'.loc, regs, Recorded(op), lo, st.cfa, st'.cfa);
  }

  /** Without a push either, every recorded slot lies between the CFAs and no two of them overlap. */
  lemma {:induction false} RecordedSlotsAreDisjoint(mem: Memory, ops: seq<Instruction>, st: State,
                                                    regs: set<nat>, lo: int)
    requires AllValid(ops) && AllPop(ops) && lo <= st.cfa && Slots(st.loc, regs, lo, st.cfa)
    requires st.cfa + TotalSize(ops) < TWO_32
    ensures Unwound(mem, ops, st).Some?
    ensures var st' := Unwound(mem, ops, st).value;
      && st'.cfa == st.cfa + TotalSize(ops)
      && Slots(st'.loc, regs + AllRecorded(ops), lo, st'.cfa)
    decreases |ops|
  {
    if ops == [] {
      assert regs + {} == regs;
    } else {
      var op := ops[0];
      assert op in ops;
      SizesGrow(ops[1..]);
      OneMoreIsDisjoint(mem, op, st, regs, lo);
      var st' := Apply(mem, st, CommandOf(op)).value;
      RecordedSlotsAreDisjoint(mem, ops[1..], st', regs + Recorded(op), lo);
      assert regs + (Recorded(op) + AllRecorded(ops[1..])) == (regs + Recorded(op)) + AllRecorded(ops[1..]);
    }
  }

  lemma {:induction false} SizesGrow(ops: seq<Instruction>)
    requires AllValid(ops) && AllPop(ops)
    ensures TotalSize(ops) >= 0
  {
    if ops != [] {
      assert ops[0] in ops;
      SizesGrow(ops[1..]);
    }
  }
}
