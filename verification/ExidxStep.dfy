/**
 A whole step by the index table: the entry's bytecode is extracted and decoded,
 and the cursor is at the caller.
 */
module ExidxStep {
  import opened Machine
  import opened ExidxDecode
  import opened ExidxTable
  import opened ExidxStack
  import ExidxSearch

  // ----- where the return address comes from -----

  lemma {:induction false} UnwoundSplits(mem: Memory, a: seq<Instruction>, b: seq<Instruction>, st: State)
    requires AllValid(a) && AllValid(b) && AllValid(a + b)
    ensures Unwound(mem, a + b, st) ==
      match Unwound(mem, a, st) case None => None case Some(u) => Unwound(mem, b, u)
    decreases |a|
  {
    if a == [] {
      assert a + b == b;
    } else {
      assert (a + b)[1..] == a[1..] + b;
      match Apply(mem, st, CommandOf(a[0]))
      case None =>
      case Some(st') => UnwoundSplits(mem, a[1..], b, st');
    }
  }

  /** A core register other than r13 stays where it is unless it is popped. */
  lemma StepKeeps(mem: Memory, op: Instruction, st: State, r: nat)
    requires Valid(op) && r < 16 && r != 13 && !Pops(op, r) && Apply(mem, st, CommandOf(op)).Some?
    ensures SameLoc(st.loc, Apply(mem, st, CommandOf(op)).value.loc, r)
  {
    if PopsCore(op) {
      CorePopEffect(mem, op, st);
      SlotOfRecorded(op, st.loc, Apply(mem, st, CommandOf(op)).value.loc, r, st.cfa);
    } else if PopsVfp(op) {
      VfpPopEffect(mem, op, st);
    } else {
      OtherEffects(mem, op, st);
    }
  }

  predicate NonePops(ops: seq<Instruction>, r: nat) {
    forall op :: op in ops ==> !Pops(op, r)
  }

  lemma {:induction false} RunKeeps(mem: Memory, ops: seq<Instruction>, st: State, r: nat)
    requires AllValid(ops) && r < 16 && r != 13 && NonePops(ops, r) && Unwound(mem, ops, st).Some?
    ensures SameLoc(st.loc, Unwound(mem, ops, st).value.loc, r)
  {
    if ops != [] {
      assert ops[0] in ops;
      StepKeeps(mem, ops[0], st, r);
      RunKeeps(mem, ops[1..], Apply(mem, st, CommandOf(ops[0])).value, r);
    }
  }

  lemma PopsInto(mem: Memory, op: Instruction, st: State, st': State, r: nat)
    requires Valid(op) && r < 16 && Pops(op, r) && Apply(mem, st, CommandOf(op)) == Some(st')
    ensures r in st'.loc && st'.loc[r] == U32(st.cfa + 4 * PoppedBelow(op, r))
  {
    CorePopEffect(mem, op, st);
    SlotOfRecorded(op, st.loc, st'.loc, r, st.cfa);
  }

  lemma SlotOfRecorded(op: Instruction, before: map<nat, word32>, after: map<nat, word32>, r: nat, start: word32)
    requires CoreRecorded(op, before, after, start) && r < 16
    ensures if Pops(op, r) then r in after && after[r] == U32(start + 4 * PoppedBelow(op, r)) else SameLoc(before, after, r)
  {
    assert CoreSlot(op, before, after, r, start);
  }

  lemma UnwoundFirst(mem: Memory, op: Instruction, after: seq<Instruction>, st: State) returns (st': State)
    requires Valid(op) && AllValid(after) && AllValid([op] + after) && Unwound(mem, [op] + after, st).Some?
    ensures Apply(mem, st, CommandOf(op)) == Some(st') && Unwound(mem, after, st') == Unwound(mem, [op] + after, st)
  {
    assert ([op] + after)[1..] == after;
    st' := Apply(mem, st, CommandOf(op)).value;
  }

  /** A register popped, and not popped again, ends in the slot of its rank above the stack pointer of that instruction. */
  lemma PoppedFirst(mem: Memory, op: Instruction, after: seq<Instruction>, st: State, u: State, r: nat)
    requires Valid(op) && AllValid(after) && AllValid([op] + after) && Unwound(mem, [op] + after, st) == Some(u)
    requires r < 16 && r != 13 && Pops(op, r) && NonePops(after, r)
    ensures r in u.loc && u.loc[r] == U32(st.cfa + 4 * PoppedBelow(op, r))
  {
    var st' := UnwoundFirst(mem, op, after, st);
    PopsInto(mem, op, st, st', r);
    RunKeeps(mem, after, st', r);
  }

  /** The slot holds r15, or r14 where r15 has no place. */
  predicate ReturnSlot(u: State, slot: word32) {
    if 15 in u.loc then u.loc[15] == slot else 14 in u.loc && u.loc[14] == slot
  }

  /** The cursor at the caller whose return address is in the slot. */
  function Returned(mem: Memory, u: State, slot: word32): State
    requires slot in mem
  {
    State(u.cfa, mem[slot], u.loc[15 := slot])
  }

  lemma FinishReturns(mem: Memory, u: State, slot: word32)
    requires ReturnSlot(u, slot) && slot in mem
    ensures Apply(mem, u, Finish) == Some(Returned(mem, u, slot))
  {
    FinishEffect(mem, u);
    assert 15 in u.loc && u.loc[15] == slot ==> u.loc[15 := slot] == u.loc;
  }

  /** The instructions and FINISH return to the word in that slot, with every other register where the instructions put it. */
  lemma RunReturns(mem: Memory, ops: seq<Instruction>, st: State, u: State, slot: word32)
    requires AllValid(ops) && Unwound(mem, ops, st) == Some(u) && ReturnSlot(u, slot) && slot in mem
    ensures Run(mem, ops, st) == Done(Returned(mem, u, slot))
  {
    RunFinishesUnwound(mem, ops, st);
    FinishReturns(mem, u, slot);
  }

  /** op is the last of the instructions that pops the register that holds the return address. */
  ghost predicate PopsReturn(before: seq<Instruction>, op: Instruction, after: seq<Instruction>, st: State, r: nat) {
    && AllValid(before) && Valid(op) && AllValid(after) && AllValid([op] + after)
    && Pops(op, r) && NonePops(after, r)
    && (r == 15 || (r == 14 && 15 !in st.loc && NonePops(before, 15) && NonePops([op] + after, 15)))
  }

  lemma ReturnIsInSlot(mem: Memory, before: seq<Instruction>, op: Instruction, after: seq<Instruction>,
                       st: State, u0: State, u: State, r: nat)
    requires PopsReturn(before, op, after, st, r)
    requires Unwound(mem, before, st) == Some(u0) && Unwound(mem, [op] + after, u0) == Some(u)
    ensures ReturnSlot(u, U32(u0.cfa + 4 * PoppedBelow(op, r)))
  {
    PoppedFirst(mem, op, after, u0, u, r);
    if r == 14 {
      RunKeeps(mem, before, st, 15);
      RunKeeps(mem, [op] + after, u0, 15);
    }
  }

  lemma RunToCaller(mem: Memory, before: seq<Instruction>, op: Instruction, after: seq<Instruction>,
                    ops: seq<Instruction>, st: State, u0: State, u: State, r: nat, slot: word32)
    requires PopsReturn(before, op, after, st, r) && ops == before + ([op] + after) && AllValid(ops)
    requires Unwound(mem, before, st) == Some(u0) && Unwound(mem, [op] + after, u0) == Some(u)
    requires slot == U32(u0.cfa + 4 * PoppedBelow(op, r)) && slot in mem
    ensures Run(mem, ops, st) == Done(Returned(mem, u, slot))
  {
    UnwoundSplits(mem, before, [op] + after, st);
    ReturnIsInSlot(mem, before, op, after, st, u0, u, r);
    RunReturns(mem, ops, st, u, slot);
  }

  /**
   Decoding returns to the word in the slot of the last pop of r15, or, where
   r15 has no place and is not popped, of the last pop of r14: as many words above
   the stack pointer as the instruction pops registers below it.
   */
  lemma ReturnIsPopped(mem: Memory, before: seq<Instruction>, op: Instruction, after: seq<Instruction>,
                       ops: seq<Instruction>, post: seq<byte>, st: State, u0: State, u: State, r: nat, slot: word32)
    requires PopsReturn(before, op, after, st, r) && ops == before + ([op] + after) && AllValid(ops)
    requires Unwound(mem, before, st) == Some(u0) && Unwound(mem, [op] + after, u0) == Some(u)
    requires slot == U32(u0.cfa + 4 * PoppedBelow(op, r)) && slot in mem
    ensures Execute(mem, EncodeAll(ops) + [0xb0] + post, 0, st) == Done(Returned(mem, u, slot))
  {
    RunToCaller(mem, before, op, after, ops, st, u0, u, r, slot);
    DecodeRunsInstructions(mem, [], ops, post, st);
    assert [] + EncodeAll(ops) == EncodeAll(ops);
  }

  // ----- the bytes extracted are the bytes meant -----

  /** Without FINISH the string's effects are those of its instructions alone. */
  lemma {:induction false} RunsOff(mem: Memory, pre: seq<byte>, ops: seq<Instruction>, st: State)
    requires AllValid(ops)
    ensures Execute(mem, pre + EncodeAll(ops), |pre|, st) ==
      match Unwound(mem, ops, st) case None => Run(mem, ops, st) case Some(u) => Done(u)
    decreases |ops|
  {
    var buf := pre + EncodeAll(ops);
    if ops != [] {
      var op, rest := ops[0], EncodeAll(ops[1..]);
      assert op in ops;
      var next := pre + Encode(op);
      assert buf == pre + Encode(op) + rest && buf == next + rest;
      DecodesInstruction(pre, op, rest);
      ExecuteOne(mem, buf, |pre|, st, CommandOf(op), |next|);
      match Apply(mem, st, CommandOf(op))
      case None =>
      case Some(st') => RunsOff(mem, next, ops[1..], st');
    }
  }

  /** FINISH opcodes that fill up a word. */
  function Padding(n: nat): (p: seq<byte>)
    ensures |p| == n && forall i :: 0 <= i < n ==> p[i] == 0xb0
  {
    if n == 0 then [] else [0xb0] + Padding(n - 1)
  }

  /** The bytes of an entry: instructions and padding. */
  ghost predicate Holds(mem: Memory, entry: word32, ops: seq<Instruction>, pad: nat) {
    AllValid(ops) && ExidxSearch.Stored(mem, entry, EncodeAll(ops) + Padding(pad))
  }

  /** The last byte looks like FINISH, but is an operand: no FINISH is put after it. */
  predicate EndsInOperand(ops: seq<Instruction>, pad: nat)
    requires AllValid(ops)
  {
    pad == 0 && ops != [] && EncodeAll(ops)[|EncodeAll(ops)| - 1] == 0xb0
  }

  lemma {:induction false} EncodesSomething(ops: seq<Instruction>)
    requires AllValid(ops)
    ensures EncodeAll(ops) == [] <==> ops == []
  {
    if ops != [] {
      assert ops[0] in ops;
    }
  }

  /** What the bytes mean: the instructions and FINISH, but for a last operand of 0xb0. */
  function Meaning(mem: Memory, ops: seq<Instruction>, pad: nat, st: State): Result
    requires AllValid(ops)
  {
    if EndsInOperand(ops, pad) && Unwound(mem, ops, st).Some? then Done(Unwound(mem, ops, st).value)
    else Run(mem, ops, st)
  }

  lemma PaddedRuns(mem: Memory, ops: seq<Instruction>, pad: nat, st: State)
    requires AllValid(ops) && pad > 0
    ensures Execute(mem, EncodeAll(ops) + Padding(pad), 0, st) == Run(mem, ops, st)
  {
    assert Padding(pad) == [0xb0] + Padding(pad - 1);
    assert EncodeAll(ops) + Padding(pad) == [] + EncodeAll(ops) + [0xb0] + Padding(pad - 1);
    DecodeRunsInstructions(mem, [], ops, Padding(pad - 1), st);
  }

  lemma FinishedRuns(mem: Memory, ops: seq<Instruction>, st: State)
    requires AllValid(ops)
    ensures Execute(mem, EncodeAll(ops) + [0xb0], 0, st) == Run(mem, ops, st)
  {
    assert EncodeAll(ops) + [0xb0] == [] + EncodeAll(ops) + [0xb0] + [];
    DecodeRunsInstructions(mem, [], ops, [], st);
  }

  lemma BareRuns(mem: Memory, ops: seq<Instruction>, st: State)
    requires AllValid(ops)
    ensures Execute(mem, EncodeAll(ops), 0, st) ==
      match Unwound(mem, ops, st) case None => Run(mem, ops, st) case Some(u) => Done(u)
  {
    assert EncodeAll(ops) == [] + EncodeAll(ops);
    RunsOff(mem, [], ops, st);
  }

  /** A string and FINISH unless it ends in 0xb0. */
  function Completed(code: seq<byte>): seq<byte>
    requires code != []
  {
    if code[|code| - 1] == 0xb0 then code else code + [0xb0]
  }

  lemma CompletedRuns(mem: Memory, ops: seq<Instruction>, pad: nat, st: State)
    requires AllValid(ops) && EncodeAll(ops) + Padding(pad) != []
    ensures Execute(mem, Completed(EncodeAll(ops) + Padding(pad)), 0, st) == Meaning(mem, ops, pad, st)
  {
    EncodesSomething(ops);
    if pad > 0 {
      PaddedRuns(mem, ops, pad, st);
    } else {
      assert EncodeAll(ops) + Padding(pad) == EncodeAll(ops);
      FinishedRuns(mem, ops, st);
      BareRuns(mem, ops, st);
    }
  }

  /** What is extracted from an entry decodes to what its bytes mean. */
  lemma ExtractedRuns(mem: Memory, entry: word32, ops: seq<Instruction>, pad: nat, st: State)
    requires Holds(mem, entry, ops, pad)
    ensures ExidxSearch.Extract(mem, entry).Code?
    ensures Execute(mem, ExidxSearch.Extract(mem, entry).bytes, 0, st) == Meaning(mem, ops, pad, st)
  {
    ExidxSearch.StoredIsExtracted(mem, entry, EncodeAll(ops) + Padding(pad));
    CompletedRuns(mem, ops, pad, st);
  }

  /** FINISH would change nothing: r15's word is ip already or cannot be read, or neither r15 nor r14 has a place. */
  predicate NothingToFinish(mem: Memory, u: State) {
    if 15 in u.loc then u.loc[15] in mem ==> mem[u.loc[15]] == u.ip else 14 !in u.loc
  }

  lemma NothingToFinishIff(mem: Memory, u: State)
    ensures Apply(mem, u, Finish) == Some(u) <==> NothingToFinish(mem, u)
  {
    FinishEffect(mem, u);
  }

  /** FINISH is missed exactly where the last byte is an operand of 0xb0 and there was something to finish. */
  lemma MissedFinishIff(mem: Memory, entry: word32, ops: seq<Instruction>, pad: nat, st: State, u: State)
    requires Holds(mem, entry, ops, pad) && Unwound(mem, ops, st) == Some(u)
    ensures ExidxSearch.Extract(mem, entry).Code?
    ensures Execute(mem, ExidxSearch.Extract(mem, entry).bytes, 0, st) == Run(mem, ops, st) <==>
      !EndsInOperand(ops, pad) || NothingToFinish(mem, u)
  {
    ExtractedRuns(mem, entry, ops, pad, st);
    RunFinishesUnwound(mem, ops, st);
    NothingToFinishIff(mem, u);
  }

  /** The usual instructions can end so: vsp = vsp + 8; pop {r8, r9, r11, lr}. */
  lemma OperandExample()
    ensures var ops := [VspAdd(1), PopHigh(0x4b0)];
      AllValid(ops) && EncodeAll(ops) == [0x01, 0x84, 0xb0] && EndsInOperand(ops, 0)
  {
    var ops := [VspAdd(1), PopHigh(0x4b0)];
    assert ops[1..] == [PopHigh(0x4b0)] && ops[1..][1..] == [];
    assert EncodeAll(ops[1..]) == [0x84, 0xb0];
  }

  // ----- the step -----

  datatype Outcome = Stepped | EndOfStack | BadFrame | NoInfo | CannotUnwind | Unreadable | DecodeFailed

  /** The cursor with r15 without a place, as every step starts. */
  function Unmarked(st: State): State {
    st.(loc := st.loc - {15})
  }

  /** How a step ends whose bytecode was decoded. */
  function Ended(old': State, new': State): Outcome {
    if new'.ip == old'.ip && new'.cfa == old'.cfa then BadFrame
    else if new'.ip == 0 then EndOfStack
    else Stepped
  }

  /** The step by a given index entry. */
  function StepBy(mem: Memory, entry: word32, st: State): (Outcome, State) {
    match ExidxSearch.Extract(mem, entry)
    case CantUnwind => (CannotUnwind, Unmarked(st))
    case Unreadable | TooLong => (Unreadable, Unmarked(st))
    case Code(bytes) =>
      match Execute(mem, bytes, 0, Unmarked(st))
      case Done(st') => (Ended(st, st'), st')
      case Failed(st') => (DecodeFailed, st')
      case Overrun => (DecodeFailed, Unmarked(st))
  }

  /** The entry's table words and its instructions do not run over their ends. */
  predicate Complete(mem: Memory, entry: word32, st: State) {
    match ExidxSearch.Extract(mem, entry)
    case TooLong => false
    case Code(bytes) => Execute(mem, bytes, 0, Unmarked(st)) != Overrun
    case _ => true
  }

  /** The address looked up: inside the call before a return address, whose Thumb bit is dropped. */
  function LookedUp(ip: word32, usePrevInstr: bool): word32 {
    if usePrevInstr then U32(ip / 2 * 2 - 1) else ip
  }

  lemma UnmarkedOnce(mem: Memory, entry: word32, st: State)
    ensures StepBy(mem, entry, Unmarked(st)) == StepBy(mem, entry, st)
  {
    assert st.loc - {15} - {15} == st.loc - {15};
  }

  /** An ARM and a Thumb return address both look up the byte before the instruction they return to. */
  lemma LooksBefore(at: word32, thumb: bool)
    requires at % 2 == 0 && at > 0
    ensures LookedUp(if thumb then at + 1 else at, true) == at - 1 && LookedUp(at, false) == at
  {
    assert (at + 1) / 2 * 2 == at;
  }

  method StepEntry(c: DwarfCursor, entry: word32) returns (o: Outcome)
    requires Complete(c.mem, entry, c.Value()) && 15 !in c.loc
    modifies c
    ensures (o, c.Value()) == StepBy(c.mem, entry, old(c.Value()))
  {
    ghost var st := c.Value();
    assert Unmarked(st) == st;
    var buf := new byte[32];
    var n := ExidxSearch.ExtractInto(c.mem, entry, buf);
    if n == -ExidxSearch.UNW_ESTOPUNWIND {
      return CannotUnwind;
    }
    if n < 0 {
      return Unreadable;
    }
    var oldIp, oldCfa := c.ip, c.cfa;
    var ret := c.Decode(buf[..n]);
    if ret < 0 {
      return DecodeFailed;
    }
    if c.ip == oldIp && c.cfa == oldCfa {
      return BadFrame;
    }
    return if c.ip == 0 then EndOfStack else Stepped;
  }

  /**
   The step comes to the caller: its return address is the word in the slot of the
   last pop of r15 or else r14, its stack pointer is where the instructions leave
   it, and it fails only if neither differs from before.
   */
  lemma StepFindsCaller(mem: Memory, entry: word32, before: seq<Instruction>, op: Instruction, after: seq<Instruction>,
                        ops: seq<Instruction>, pad: nat, st: State, u0: State, u: State, r: nat, slot: word32)
    requires PopsReturn(before, op, after, Unmarked(st), r) && ops == before + ([op] + after)
    requires Holds(mem, entry, ops, pad) && !EndsInOperand(ops, pad)
    requires Unwound(mem, before, Unmarked(st)) == Some(u0) && Unwound(mem, [op] + after, u0) == Some(u)
    requires slot == U32(u0.cfa + 4 * PoppedBelow(op, r)) && slot in mem
    ensures Complete(mem, entry, st)
    ensures StepBy(mem, entry, st) ==
      (if mem[slot] == st.ip && u.cfa == st.cfa then BadFrame else if mem[slot] == 0 then EndOfStack else Stepped,
       State(u.cfa, mem[slot], u.loc[15 := slot]))
  {
    RunToCaller(mem, before, op, after, ops, Unmarked(st), u0, u, r, slot);
    StepRuns(mem, entry, ops, pad, st, Returned(mem, u, slot));
  }

  lemma StepRuns(mem: Memory, entry: word32, ops: seq<Instruction>, pad: nat, st: State, st': State)
    requires Holds(mem, entry, ops, pad) && !EndsInOperand(ops, pad) && Run(mem, ops, Unmarked(st)) == Done(st')
    ensures Complete(mem, entry, st) && StepBy(mem, entry, st) == (Ended(st, st'), st')
  {
    ExtractedRuns(mem, entry, ops, pad, Unmarked(st));
  }

  /** arm_exidx_step: the step by the entry that covers the address looked up. */
  method Step(c: DwarfCursor, table: word32, tableLen: nat, endIp: word32, usePrevInstr: bool)
    returns (o: Outcome, ghost i: nat)
    requires tableLen % 8 == 0 && ExidxSearch.IsTable(table, tableLen / 8)
    requires ExidxSearch.Readable(c.mem, table, tableLen / 8) && ExidxSearch.Sorted(c.mem, table, tableLen / 8)
    requires forall k :: 0 <= k < tableLen / 8 ==>
      Complete(c.mem, ExidxSearch.EntryAt(table, tableLen / 8, k), Unmarked(c.Value()))
    modifies c
    ensures var n, ip := tableLen / 8, LookedUp(old(c.ip), usePrevInstr);
      if ip < ExidxSearch.Start(c.mem, table, n, 0) then o == NoInfo && c.Value() == Unmarked(old(c.Value()))
      else
        && i < n && ExidxSearch.Covers(c.mem, table, n, i, ip)
        && (o, c.Value()) == StepBy(c.mem, table + 8 * i, old(c.Value()))
  {
    c.loc := c.loc - {15};
    var status, pi;
    status, pi, i := ExidxSearch.Search(c.mem, table, tableLen, endIp, LookedUp(c.ip, usePrevInstr));
    if status != ExidxSearch.Ok {
      return NoInfo, i;
    }
    assert pi.entry == ExidxSearch.EntryAt(table, tableLen / 8, i);
    UnmarkedOnce(c.mem, pi.entry, old(c.Value()));
    o := StepEntry(c, pi.entry);
  }
}
