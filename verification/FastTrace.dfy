/**
 The fast aarch64 backtrace: walk the stack from cached frame descriptors.
 TableWalk is the loop on a given table, as Trace runs it; FastWalk is the walk
 as a function of what each pc's frame looks like, whatever the table holds.
 */
module FastTrace {
  import opened Machine
  import opened Locations
  import opened Descriptor
  import opened TraceCache

  // offsets into the Linux sigcontext
  const SC_X29_OFF: int := 0xf0
  const SC_X30_OFF: int := 0xf8
  const SC_SP_OFF: int := 0x100
  const SC_PC_OFF: int := 0x108

  const LOWEST_PC: int := 0x4000

  /** What is known of the register that loc[X30] names; stepping over a frame may move it. */
  datatype LinkRegister = Known(value: Option<word>) | Moved

  datatype WalkState = WalkState(
    pc: word, cfa: word, fp: word, sp: word,
    lr: word,                // left by a signal frame, else 0
    usePrevInstr: bool,
    x30: LinkRegister)

  /** Unpredicted: the walk needs a link register whose location the cache does not decide. */
  datatype Status = Ok | BadAccess | NoInfo | StopUnwind | OutOfMemory | Invalid | Unpredicted

  datatype Next = Continue(st: WalkState) | Stop(status: Status)

  datatype Walk = Walk(addrs: seq<word>, status: Status)

  /** The pc whose unwind rules apply: inside the call instruction, after a call. */
  function LookupPc(pc: word, usePrevInstr: bool): word {
    if !usePrevInstr then pc else if pc == 0 then TWO_64 - 1 else pc - 1
  }

  function X30After(r: StepResult, x30: LinkRegister): LinkRegister {
    if KeepsX30(r) then x30 else Moved
  }

  function FinishStandard(mem: Memory, f: Frame, st: WalkState, cfa: word, pc: word): (next: Next)
    ensures next.Continue? ==> next.st.pc >= LOWEST_PC && next.st.x30 == st.x30
  {
    var fp := if f.fpCfaOffset != -1 then Load(mem, U64(cfa + f.fpCfaOffset)) else Some(st.fp);
    if fp.None? then Stop(BadAccess)
    else if pc < LOWEST_PC then Stop(Ok)
    else Continue(WalkState(pc, cfa, fp.value, cfa, if f.lrCfaOffset != -1 then st.lr else 0, true, st.x30))
  }

  function StandardStep(mem: Memory, f: Frame, st: WalkState): (next: Next)
    ensures next.Continue? ==> next.st.pc >= LOWEST_PC && next.st.x30 == st.x30
  {
    var cfa := U64((if f.cfaRegSp then st.sp else st.fp) + f.cfaRegOffset);
    if f.lrCfaOffset != -1 then
      (match Load(mem, U64(cfa + f.lrCfaOffset))
       case None => Stop(BadAccess)
       case Some(pc) => FinishStandard(mem, f, st, cfa, pc))
    else if st.lr != 0 then
      FinishStandard(mem, f, st, cfa, st.lr)
    else
      match st.x30
      case Known(Some(v)) => FinishStandard(mem, f, st, cfa, v)
      case Known(None) => Stop(StopUnwind)
      case Moved => Stop(Unpredicted)
  }

  function SignalStep(mem: Memory, f: Frame, st: WalkState): (next: Next)
    ensures next.Continue? ==> next.st.pc >= LOWEST_PC && next.st.x30 == st.x30
  {
    var context := U64(st.cfa + f.cfaRegOffset);
    var pc := Load(mem, U64(context + SC_PC_OFF));
    var fp := Load(mem, U64(context + SC_X29_OFF));
    var sp := Load(mem, U64(context + SC_SP_OFF));
    var lr := Load(mem, U64(context + SC_X30_OFF));
    if pc.None? || fp.None? || sp.None? || lr.None? then Stop(BadAccess)
    else if pc.value < LOWEST_PC then Stop(Ok)
    else Continue(WalkState(pc.value, sp.value, fp.value, sp.value, lr.value, false, st.x30))
  }

  /** A frame's step goes on only to a pc that is not too low, and leaves loc[X30] alone. */
  function FrameStep(mem: Memory, f: Frame, st: WalkState): (next: Next)
    ensures next.Continue? ==> next.st.pc >= LOWEST_PC && next.st.x30 == st.x30
  {
    if f.lastFrame then Stop(Ok)
    else
      match f.frameType
      case Standard | Guessed => StandardStep(mem, f, st)
      case Sigreturn => SignalStep(mem, f, st)
      case Other => Stop(StopUnwind)
  }

  function OneFrame(o: Oracle, mem: Memory, st: WalkState): Next {
    var pc := LookupPc(st.pc, st.usePrevInstr);
    FrameStep(mem, Describe(pc, o(pc)), st.(x30 := X30After(o(pc), st.x30)))
  }

  /** At most n return addresses, and why the walk ended. */
  function FastWalk(o: Oracle, mem: Memory, st: WalkState, n: nat): (w: Walk)
    ensures |w.addrs| <= n
    decreases n
  {
    if n == 0 then Walk([], Ok)
    else
      match OneFrame(o, mem, st)
      case Stop(s) => Walk([], s)
      case Continue(st') =>
        var rest := FastWalk(o, mem, st', n - 1);
        Walk([st'.pc] + rest.addrs, rest.status)
  }

  // ----- the walk on a table -----

  /** What a step leaves to be loaded through loc[X30], where its rules do not say. */
  type Left = (word, WalkState) -> Option<word>

  /** All that is not in the cache: each pc's step, what it leaves in loc[X30], and memory. */
  datatype World = World(o: Oracle, left: Left, mem: Memory)

  /** loc[X30] after a step by rules: the slot they save LR in, or nothing. */
  function LinkByRules(w: World, rs: RuleTable, pc: word, st: WalkState): Option<word> {
    match rs.lr
    case CfaRel(v) =>
      Load(w.mem, U64(U64((if rs.cfa == Reg(SP) then st.cfa else st.fp) + rs.cfaOffset) + v))
    case Undef | IsCfa => None
    case _ => w.left(pc, st)
  }

  function LinkLeft(w: World, pc: word, st: WalkState): Option<word> {
    match w.o(pc)
    case ByRules(rs, _) => LinkByRules(w, rs, pc, st)
    case _ => w.left(pc, st)
  }

  /** One turn of the loop on table t: where it goes on, and the table then. */
  function TableFrame(w: World, t: Table, st: WalkState, canAllocate: bool): (r: (Next, Table))
    requires Shape(t) && st.x30.Known?
    ensures Shape(r.1)
    ensures r.0.Continue? ==> r.0.st.x30.Known?
  {
    var pc := LookupPc(st.pc, st.usePrevInstr);
    var f := Describe(pc, w.o(pc));
    match Answered(t, pc, f, canAllocate)
    case None => (Stop(NoInfo), Lookup(t, pc, f, canAllocate).0)
    case Some(found) =>
      var x30 := Known(LinkAfter(t, pc, canAllocate, w.o(pc), LinkLeft(w, pc, st), st.x30.value));
      (FrameStep(w.mem, found, st.(x30 := x30)), Lookup(t, pc, f, canAllocate).0)
  }

  /** The loop from st on, with room for n more addresses; alloc(n) says whether an expansion then gets memory. */
  function TableWalk(w: World, t: Table, alloc: nat -> bool, st: WalkState, n: nat): (r: (Walk, Table))
    requires Shape(t) && st.x30.Known?
    ensures Shape(r.1)
    decreases n
  {
    if n == 0 then (Walk([], Ok), t)
    else
      var r := TableFrame(w, t, st, alloc(n));
      match r.0
      case Stop(s) => (Walk([], s), r.1)
      case Continue(st') =>
        var rest := TableWalk(w, r.1, alloc, st', n - 1);
        (Walk([st'.pc] + rest.0.addrs, rest.0.status), rest.1)
  }

  // ----- the same walk with the turn as a parameter -----

  type TurnFn = (Table, WalkState, bool) -> (Next, Table)

  function Iterate(turn: TurnFn, alloc: nat -> bool, t: Table, st: WalkState, n: nat): (Walk, Table)
    decreases n
  {
    if n == 0 then (Walk([], Ok), t)
    else
      var r := turn(t, st, alloc(n));
      match r.0
      case Stop(s) => (Walk([], s), r.1)
      case Continue(st') =>
        var rest := Iterate(turn, alloc, r.1, st', n - 1);
        (Walk([st'.pc] + rest.0.addrs, rest.0.status), rest.1)
  }

  ghost predicate IsTurn(turn: TurnFn, w: World) {
    forall t: Table, st: WalkState, canAllocate: bool {:trigger TableFrame(w, t, st, canAllocate)} :: Shape(t) && st.x30.Known? ==>
      turn(t, st, canAllocate) == TableFrame(w, t, st, canAllocate)
  }

  ghost predicate IsRest(rest: (Walk, Table), w: World, t: Table, alloc: nat -> bool, st: WalkState, n: nat) {
    Shape(t) && st.x30.Known? && rest == TableWalk(w, t, alloc, st, n)
  }

  ghost predicate Iterates(turn: TurnFn, w: World, t: Table, alloc: nat -> bool, st: WalkState, n: nat) {
    forall r :: IsRest(r, w, t, alloc, st, n) ==> r == Iterate(turn, alloc, t, st, n)
  }

  lemma TurnKeepsShape(turn: TurnFn, w: World, t: Table, st: WalkState, canAllocate: bool)
    requires IsTurn(turn, w) && Shape(t) && st.x30.Known?
    ensures turn(t, st, canAllocate) == TableFrame(w, t, st, canAllocate)
    ensures var r := turn(t, st, canAllocate); Shape(r.1) && (r.0.Continue? ==> r.0.st.x30.Known?)
  {
    var r := TableFrame(w, t, st, canAllocate);
  }

  lemma IterateTurn(turn: TurnFn, w: World, t: Table, alloc: nat -> bool, st: WalkState, n: nat)
    requires IsTurn(turn, w) && Shape(t) && st.x30.Known? && n > 0
    requires var r := turn(t, st, alloc(n)); r.0.Continue? ==> Iterates(turn, w, r.1, alloc, r.0.st, n - 1)
    ensures Iterates(turn, w, t, alloc, st, n)
  {
    TurnKeepsShape(turn, w, t, st, alloc(n));
    var r := turn(t, st, alloc(n));
    if r.0.Continue? {
      assert IsRest(TableWalk(w, r.1, alloc, r.0.st, n - 1), w, r.1, alloc, r.0.st, n - 1);
    }
  }

  lemma GoesOnInShape(turn: TurnFn, w: World, t: Table, st: WalkState, canAllocate: bool)
    requires IsTurn(turn, w) && Shape(t) && st.x30.Known? && turn(t, st, canAllocate).0.Continue?
    ensures Shape(turn(t, st, canAllocate).1) && turn(t, st, canAllocate).0.st.x30.Known?
  {
    TurnKeepsShape(turn, w, t, st, canAllocate);
  }

  lemma {:induction false} IterateIsTableWalk(turn: TurnFn, w: World, t: Table, alloc: nat -> bool, st: WalkState, n: nat)
    requires IsTurn(turn, w) && Shape(t) && st.x30.Known?
    ensures Iterates(turn, w, t, alloc, st, n)
    decreases n
  {
    if n > 0 {
      var r := turn(t, st, alloc(n));
      if r.0.Continue? {
        GoesOnInShape(turn, w, t, st, alloc(n));
        IterateIsTableWalk(turn, w, r.1, alloc, r.0.st, n - 1);
      }
      IterateTurn(turn, w, t, alloc, st, n);
    }
  }

  /** The whole trace is what is in the buffer, then what the loop still does. */
  ghost predicate Ahead(turn: TurnFn, whole: (Walk, Table), out: seq<word>, t: Table, alloc: nat -> bool, st: WalkState, n: nat) {
    var rest := Iterate(turn, alloc, t, st, n);
    whole == (Walk(out + rest.0.addrs, rest.0.status), rest.1)
  }

  lemma AheadStarts(turn: TurnFn, t: Table, alloc: nat -> bool, st: WalkState, n: nat)
    ensures Ahead(turn, Iterate(turn, alloc, t, st, n), [], t, alloc, st, n)
  {
    assert [] + Iterate(turn, alloc, t, st, n).0.addrs == Iterate(turn, alloc, t, st, n).0.addrs;
  }

  lemma AheadEnds(turn: TurnFn, whole: (Walk, Table), out: seq<word>, t: Table, alloc: nat -> bool, st: WalkState, n: nat)
    requires Ahead(turn, whole, out, t, alloc, st, n) && n == 0
    ensures whole == (Walk(out, Ok), t)
  {
    assert out + [] == out;
  }

  lemma AheadStops(turn: TurnFn, whole: (Walk, Table), out: seq<word>, t: Table, alloc: nat -> bool, st: WalkState, n: nat,
                   status: Status, t': Table)
    requires Ahead(turn, whole, out, t, alloc, st, n)
    requires n > 0 && turn(t, st, alloc(n)) == (Stop(status), t')
    ensures whole == (Walk(out, status), t')
  {
    assert out + [] == out;
  }

  lemma AheadGoesOn(turn: TurnFn, whole: (Walk, Table), out: seq<word>, t: Table, alloc: nat -> bool, st: WalkState, n: nat,
                    out': seq<word>, t': Table, st': WalkState, n': nat)
    requires Ahead(turn, whole, out, t, alloc, st, n)
    requires n > 0 && turn(t, st, alloc(n)) == (Continue(st'), t')
    requires out' == out + [st'.pc] && n' == n - 1
    ensures Ahead(turn, whole, out', t', alloc, st', n')
  {
    var rest := Iterate(turn, alloc, t', st', n');
    assert out + ([st'.pc] + rest.0.addrs) == out' + rest.0.addrs;
  }

  /** ACCESS_MEM_FAST: the negative return as false. */
  method Access(mem: Memory, addr: word, unread: word) returns (ok: bool, v: word)
    ensures ok == Load(mem, addr).Some?
    ensures v == if ok then Load(mem, addr).value else unread
  {
    ok := addr in mem;
    v := if ok then mem[addr] else unread;
  }

  /** The registers the walk carries from frame to frame. */
  datatype Registers = Registers(pc: word, cfa: word, fp: word, sp: word, lr: word)

  /** The registers a signal frame saved at context. */
  method ReadContext(mem: Memory, context: word, pc: word, fp: word, sp: word, lr: word)
    returns (ok: bool, pc': word, fp': word, sp': word, lr': word)
    ensures ok <==> && Load(mem, U64(context + SC_PC_OFF)).Some?
                    && Load(mem, U64(context + SC_X29_OFF)).Some?
                    && Load(mem, U64(context + SC_SP_OFF)).Some?
                    && Load(mem, U64(context + SC_X30_OFF)).Some?
    ensures ok ==> && Load(mem, U64(context + SC_PC_OFF)) == Some(pc')
                   && Load(mem, U64(context + SC_X29_OFF)) == Some(fp')
                   && Load(mem, U64(context + SC_SP_OFF)) == Some(sp')
                   && Load(mem, U64(context + SC_X30_OFF)) == Some(lr')
  {
    fp', sp', lr' := fp, sp, lr;
    ok, pc' := Access(mem, U64(context + SC_PC_OFF), pc);
    if ok {
      ok, fp' := Access(mem, U64(context + SC_X29_OFF), fp);
    }
    if ok {
      ok, sp' := Access(mem, U64(context + SC_SP_OFF), sp);
    }
    if ok {
      ok, lr' := Access(mem, U64(context + SC_X30_OFF), lr);
    }
  }

  /** The registers of the caller of a standard frame; the loads are made in the order CFA, pc, FP. */
  method ReadStandard(mem: Memory, f: Frame, x30: Option<word>, regs: Registers)
    returns (regs': Registers, status: Status)
    ensures StandardStep(mem, f, StateOf(regs, true, x30)) ==
      if status != Ok || regs'.pc < LOWEST_PC then Stop(status) else Continue(StateOf(regs', true, x30))
  {
    var Registers(pc, cfa, fp, sp, lr) := regs;
    var ok := true;
    cfa := U64((if f.cfaRegSp then sp else fp) + f.cfaRegOffset);
    if f.lrCfaOffset != -1 {
      ok, pc := Access(mem, U64(cfa + f.lrCfaOffset), pc);
    } else {
      if lr == 0 {
        if x30.None? {
          return regs, StopUnwind;
        }
        lr := x30.value;
      }
      pc := lr;
      lr := 0;
    }
    if ok && f.fpCfaOffset != -1 {
      ok, fp := Access(mem, U64(cfa + f.fpCfaOffset), fp);
    }
    sp := cfa;
    regs', status := Registers(pc, cfa, fp, sp, lr), if ok then Ok else BadAccess;
  }

  /** One frame of tdep_trace's loop, after its descriptor is found; done is a break or return. */
  method TraceFrame(cursor: Cursor, f: Frame, mem: Memory, regs: Registers)
    returns (regs': Registers, done: bool, status: Status)
    modifies cursor`usePrevInstr
    ensures FrameStep(mem, f, StateOf(regs, old(cursor.usePrevInstr), cursor.x30)) ==
      if done then Stop(status) else Continue(StateOf(regs', cursor.usePrevInstr, cursor.x30))
  {
    regs', done, status := regs, true, Ok;
    if f.lastFrame {
      return;
    }
    match f.frameType {
      case Standard | Guessed =>
        regs', status := ReadStandard(mem, f, cursor.x30, regs);
        if status == StopUnwind {
          return regs, true, status;
        }
        cursor.usePrevInstr := true;
      case Sigreturn =>
        var Registers(pc, cfa, fp, sp, lr) := regs;
        var ok;
        ok, pc, fp, sp, lr := ReadContext(mem, U64(cfa + f.cfaRegOffset), pc, fp, sp, lr);
        regs', status := Registers(pc, sp, fp, sp, lr), if ok then Ok else BadAccess;
        cursor.usePrevInstr := false;
      case Other =>
        return regs, true, StopUnwind;
    }
    done := status != Ok || regs'.pc < LOWEST_PC;
  }

  function StateOf(regs: Registers, usePrevInstr: bool, x30: Option<word>): WalkState {
    WalkState(regs.pc, regs.cfa, regs.fp, regs.sp, regs.lr, usePrevInstr, Known(x30))
  }

  /** One turn of the loop. */
  method TraceOne(cursor: Cursor, cache: Cache, w: World, regs: Registers, canAllocate: bool)
    returns (regs': Registers, done: bool, status: Status)
    requires Shape(cache.Value())
    modifies cursor, cache, cache.frames
    ensures cache.frames == old(cache.frames) || fresh(cache.frames)
    ensures TableFrame(w, old(cache.Value()), old(StateOf(regs, cursor.usePrevInstr, cursor.x30)), canAllocate) ==
      (if done then Stop(status) else Continue(StateOf(regs', cursor.usePrevInstr, cursor.x30)), cache.Value())
  {
    var st := StateOf(regs, cursor.usePrevInstr, cursor.x30);
    var pc := LookupPc(regs.pc, cursor.usePrevInstr);
    var f := cache.FrameAt(cursor, w.o, LinkLeft(w, pc, st), pc, canAllocate);
    if f.None? {
      return regs, true, NoInfo;
    }
    regs', done, status := TraceFrame(cursor, f.value, w.mem, regs);
  }

  lemma PutNext(out: seq<word>, before: seq<word>, v: word)
    requires |out| < |before|
    ensures (out + before[|out|..])[|out| := v] == (out + [v]) + before[|out| + 1..]
  {
  }

  /** One turn of the loop, as a step along the walk `whole` from st on table t. */
  method TraceTurn(cursor: Cursor, cache: Cache, w: World, alloc: nat -> bool, regs: Registers, n: nat,
                   ghost turn: TurnFn, ghost whole: (Walk, Table), ghost out: seq<word>, ghost t: Table, ghost st: WalkState)
    returns (regs': Registers, done: bool, status: Status,
             ghost out': seq<word>, ghost t': Table, ghost st': WalkState, ghost n': nat)
    requires n > 0 && t == cache.Value() && st == StateOf(regs, cursor.usePrevInstr, cursor.x30)
    requires IsTurn(turn, w) && Shape(t) && Ahead(turn, whole, out, t, alloc, st, n)
    modifies cursor, cache, cache.frames
    ensures cache.frames == old(cache.frames) || fresh(cache.frames)
    ensures t' == cache.Value() && st' == StateOf(regs', cursor.usePrevInstr, cursor.x30)
    ensures Shape(t') && n' == n - 1
    ensures done ==> whole == (Walk(out, status), t')
    ensures !done ==> out' == out + [regs'.pc] && Ahead(turn, whole, out', t', alloc, st', n')
  {
    regs', done, status := TraceOne(cursor, cache, w, regs, alloc(n));
    out', t', n' := out + [regs'.pc], cache.Value(), n - 1;
    st' := StateOf(regs', cursor.usePrevInstr, cursor.x30);
    if done {
      AheadStops(turn, whole, out, t, alloc, st, n, status, t');
    } else {
      AheadGoesOn(turn, whole, out, t, alloc, st, n, out', t', st', n');
    }
  }

  /** One turn of the loop, with its pc in the buffer at depth unless it is the last. */
  method TraceAndRecord(cursor: Cursor, cache: Cache, w: World, alloc: nat -> bool, regs: Registers, n: nat,
                        buffer: array<word>, depth: nat, ghost turn: TurnFn, ghost whole: (Walk, Table),
                        ghost out: seq<word>, ghost before: seq<word>, ghost t: Table, ghost st: WalkState)
    returns (regs': Registers, done: bool, status: Status,
             ghost out': seq<word>, ghost t': Table, ghost st': WalkState, ghost n': nat)
    requires n > 0 && t == cache.Value() && st == StateOf(regs, cursor.usePrevInstr, cursor.x30)
    requires IsTurn(turn, w) && Shape(t) && Ahead(turn, whole, out, t, alloc, st, n)
    requires depth < buffer.Length && depth == |out| && |before| == buffer.Length
    requires buffer[..] == out + before[depth..]
    modifies cursor, cache, cache.frames, buffer
    ensures cache.frames == old(cache.frames) || fresh(cache.frames)
    ensures t' == cache.Value() && st' == StateOf(regs', cursor.usePrevInstr, cursor.x30)
    ensures Shape(t') && n' == n - 1
    ensures done ==> whole == (Walk(out, status), t') && buffer[..] == old(buffer[..])
    ensures !done ==> |out'| == depth + 1 && Ahead(turn, whole, out', t', alloc, st', n')
    ensures !done ==> buffer[..] == out' + before[depth + 1..]
  {
    regs', done, status, out', t', st', n' := TraceTurn(cursor, cache, w, alloc, regs, n, turn, whole, out, t, st);
    if !done {
      Record(buffer, depth, regs'.pc, out, before, out');
    }
  }

  /** The loop of tdep_trace, carrying out the walk `whole`. */
  method TraceLoop(cursor: Cursor, cache: Cache, w: World, alloc: nat -> bool, start: Registers,
                   buffer: array<word>, maxdepth: nat, ghost turn: TurnFn, ghost whole: (Walk, Table))
    returns (depth: nat, status: Status)
    requires maxdepth <= buffer.Length && IsTurn(turn, w) && Shape(cache.Value())
    requires Ahead(turn, whole, [], cache.Value(), alloc, StateOf(start, cursor.usePrevInstr, cursor.x30), maxdepth)
    modifies cursor, cache, cache.frames, buffer
    ensures cache.frames == old(cache.frames) || fresh(cache.frames)
    ensures depth <= maxdepth && buffer[depth..] == old(buffer[depth..])
    ensures (Walk(buffer[..depth], status), cache.Value()) == whole
  {
    var regs := start;
    depth := 0;
    ghost var t, st := cache.Value(), StateOf(regs, cursor.usePrevInstr, cursor.x30);
    ghost var out, before, n := [], buffer[..], maxdepth;
    while depth < maxdepth
      invariant depth <= maxdepth && |out| == depth && n == maxdepth - depth
      invariant cache.frames == old(cache.frames) || fresh(cache.frames)
      invariant buffer[..] == out + before[depth..]
      invariant t == cache.Value() && st == StateOf(regs, cursor.usePrevInstr, cursor.x30)
      invariant Shape(t) && Ahead(turn, whole, out, t, alloc, st, n)
    {
      ghost var out', t', st', n';
      var regs', done, why;
      regs', done, why, out', t', st', n' := TraceAndRecord(cursor, cache, w, alloc, regs, maxdepth - depth,
                                                            buffer, depth, turn, whole, out, before, t, st);
      if done {
        assert buffer[..depth] == out;
        return depth, why;
      }
      out, t, st, n := out', t', st', n';
      depth := depth + 1;
      regs := regs';
    }
    AheadEnds(turn, whole, out, t, alloc, st, n);
    assert buffer[..depth] == out;
    status := Ok;
  }

  /** buffer[depth] := pc, where out is what the buffer got so far and before what it held at first. */
  method Record(buffer: array<word>, depth: nat, pc: word, ghost out: seq<word>, ghost before: seq<word>,
                ghost out': seq<word>)
    requires depth < buffer.Length && depth == |out| && |before| == buffer.Length
    requires buffer[..] == out + before[depth..] && out' == out + [pc]
    modifies buffer
    ensures buffer[..] == out' + before[depth + 1..]
  {
    PutNext(out, before, pc);
    buffer[depth] := pc;
    assert buffer[..] == old(buffer[..])[depth := pc];
  }

  function Start(ip: word, cfa: word, fp: word, usePrevInstr: bool, x30: Option<word>): WalkState {
    WalkState(ip, cfa, fp, cfa, 0, usePrevInstr, Known(x30))
  }

  /** tdep_trace: buffer, size, status and the cache afterwards are those of the walk on the cache's table. */
  method Trace(cursor: Cursor, cache: Cache?, w: World, alloc: nat -> bool,
               ip: word, cfa: word, fp: word, buffer: array<word>, maxdepth: int)
    returns (size: int, status: Status)
    requires maxdepth <= buffer.Length
    requires cache != null ==> Shape(cache.Value())
    modifies cursor, cache, if cache != null then {cache.frames} else {}, buffer
    ensures maxdepth <= 0 ==> status == Invalid && size == maxdepth
    ensures maxdepth > 0 && cache == null ==> status == OutOfMemory && size == 0
    ensures maxdepth > 0 && cache != null ==>
      && 0 <= size <= maxdepth
      && (Walk(buffer[..size], status), cache.Value()) ==
           TableWalk(w, old(cache.Value()), alloc, Start(ip, cfa, fp, old(cursor.usePrevInstr), old(cursor.x30)), maxdepth)
    ensures 0 <= size ==> buffer[size..] == old(buffer[size..])
  {
    if maxdepth <= 0 {
      return maxdepth, Invalid;
    }
    if cache == null {
      return 0, OutOfMemory;
    }
    ghost var t, st := cache.Value(), Start(ip, cfa, fp, cursor.usePrevInstr, cursor.x30);
    ghost var turn := SomeTurn(w);
    AheadStarts(turn, t, alloc, st, maxdepth);
    WalkByTurn(turn, w, t, alloc, st, maxdepth);
    size, status := TraceLoop(cursor, cache, w, alloc, Registers(ip, cfa, fp, cfa, 0), buffer, maxdepth,
                              turn, Iterate(turn, alloc, t, st, maxdepth));
  }

  // ----- what does not depend on the table -----

  /**
   What a trace may return, the walk being w.  It falls short of the walk only when
   the cache must grow and cannot (NoInfo), and passes it only where it is unpredicted.
   */
  ghost predicate Traced(w: Walk, addrs: seq<word>, status: Status) {
    if w.status == Unpredicted && w.addrs <= addrs then true
    else if status == NoInfo then addrs <= w.addrs
    else addrs == w.addrs && status == w.status
  }

  /** The same state, but that the link register may be known to the one and not to the other. */
  ghost predicate Blurs(fast: WalkState, st: WalkState) {
    && st.x30.Known? && fast.(x30 := st.x30) == st
    && (fast.x30.Known? ==> fast.x30 == st.x30)
  }

  /** What a step makes of the blurred state against what it makes of the state itself. */
  ghost predicate BlursNext(a: Next, b: Next) {
    && (a.Continue? ==> b.Continue? && Blurs(a.st, b.st))
    && (a.Stop? && a.status != Unpredicted ==> b == a)
    && (b.Stop? ==> b.status != NoInfo && b.status != Unpredicted)
  }

  lemma BlurredFinish(mem: Memory, f: Frame, fast: WalkState, st: WalkState, cfa: word, pc: word)
    requires Blurs(fast, st)
    ensures BlursNext(FinishStandard(mem, f, fast, cfa, pc), FinishStandard(mem, f, st, cfa, pc))
  {
  }

  lemma BlurredStandard(mem: Memory, f: Frame, fast: WalkState, st: WalkState)
    requires Blurs(fast, st)
    ensures BlursNext(StandardStep(mem, f, fast), StandardStep(mem, f, st))
  {
    var cfa := U64((if f.cfaRegSp then st.sp else st.fp) + f.cfaRegOffset);
    if f.lrCfaOffset != -1 {
      var slot := Load(mem, U64(cfa + f.lrCfaOffset));
      if slot.Some? {
        BlurredFinish(mem, f, fast, st, cfa, slot.value);
      }
    } else if st.lr != 0 {
      BlurredFinish(mem, f, fast, st, cfa, st.lr);
    } else if st.x30.value.Some? {
      BlurredFinish(mem, f, fast, st, cfa, st.x30.value.value);
    }
  }

  lemma BlurredSignal(mem: Memory, f: Frame, fast: WalkState, st: WalkState)
    requires Blurs(fast, st)
    ensures BlursNext(SignalStep(mem, f, fast), SignalStep(mem, f, st))
  {
  }

  lemma BlurredStep(mem: Memory, f: Frame, fast: WalkState, st: WalkState)
    requires Blurs(fast, st)
    ensures BlursNext(FrameStep(mem, f, fast), FrameStep(mem, f, st))
  {
    BlurredStandard(mem, f, fast, st);
    BlurredSignal(mem, f, fast, st);
  }

  /** On a well-formed table a turn of the loop is a step of the fast walk, if it finds its descriptor. */
  lemma FrameFollows(w: World, t: Table, st: WalkState, fast: WalkState, canAllocate: bool)
    requires Inv(t, w.o) && Blurs(fast, st) && LookupPc(st.pc, st.usePrevInstr) != 0
    ensures var r := TableFrame(w, t, st, canAllocate);
      var a := OneFrame(w.o, w.mem, fast);
      && Inv(r.1, w.o)
      && (r.0 == Stop(NoInfo) ==> !canAllocate)
      && (r.0 != Stop(NoInfo) && a.Continue? ==> r.0.Continue? && Blurs(a.st, r.0.st))
      && (r.0 != Stop(NoInfo) && a.Stop? && a.status != Unpredicted ==> r.0 == a)
  {
    var pc := LookupPc(st.pc, st.usePrevInstr);
    var f := Describe(pc, w.o(pc));
    LookupKeepsInv(t, w.o, pc, canAllocate);
    var x30 := Known(LinkAfter(t, pc, canAllocate, w.o(pc), LinkLeft(w, pc, st), st.x30.value));
    BlurredStep(w.mem, f, fast.(x30 := X30After(w.o(pc), fast.x30)), st.(x30 := x30));
  }

  lemma FastUnfolds(o: Oracle, mem: Memory, st: WalkState, n: nat)
    requires n > 0
    ensures OneFrame(o, mem, st).Stop? ==> FastWalk(o, mem, st, n) == Walk([], OneFrame(o, mem, st).status)
    ensures OneFrame(o, mem, st).Continue? ==>
      var st' := OneFrame(o, mem, st).st;
      && FastWalk(o, mem, st, n).addrs == [st'.pc] + FastWalk(o, mem, st', n - 1).addrs
      && FastWalk(o, mem, st, n).status == FastWalk(o, mem, st', n - 1).status
  {
  }

  /** A trace and the table it leaves, against the fast walk f. */
  ghost predicate Agrees(o: Oracle, r: (Walk, Table), f: Walk) {
    Inv(r.1, o) && Traced(f, r.0.addrs, r.0.status)
  }

  lemma GoesAboveZero(w: World, t: Table, st: WalkState, canAllocate: bool)
    requires Shape(t) && st.x30.Known? && TableFrame(w, t, st, canAllocate).0.Continue?
    ensures var st' := TableFrame(w, t, st, canAllocate).0.st; LookupPc(st'.pc, st'.usePrevInstr) != 0
  {
  }

  /** A well-formed table and a pc that a lookup can describe. */
  ghost predicate Ready(w: World, t: Table, st: WalkState, fast: WalkState) {
    Inv(t, w.o) && Blurs(fast, st) && LookupPc(st.pc, st.usePrevInstr) != 0
  }

  /** Where the fast walk stands after a turn that went on to st; unpredicted, it may stand there as well. */
  function Onward(a: Next, st: WalkState): WalkState {
    if a.Continue? then a.st else st
  }

  lemma TurnKeepsReady(turn: TurnFn, w: World, t: Table, st: WalkState, fast: WalkState, canAllocate: bool)
    requires IsTurn(turn, w) && Ready(w, t, st, fast)
    ensures var r := turn(t, st, canAllocate);
      var a := OneFrame(w.o, w.mem, fast);
      && Inv(r.1, w.o)
      && (r.0.Continue? ==> Ready(w, r.1, r.0.st, Onward(a, r.0.st)))
      && (r.0.Continue? && a.Continue? ==> r.0.st.pc == a.st.pc)
      && (r.0.Continue? && a.Stop? ==> a.status == Unpredicted)
      && (r.0.Stop? ==> r.0.status == NoInfo || a == Stop(Unpredicted) || r.0 == a)
      && (r.0 == Stop(NoInfo) ==> !canAllocate)
  {
    FrameFollows(w, t, st, fast, canAllocate);
    var r := TableFrame(w, t, st, canAllocate);
    if r.0.Continue? {
      GoesAboveZero(w, t, st, canAllocate);
    }
  }

  lemma NextReady(turn: TurnFn, w: World, t: Table, st: WalkState, fast: WalkState, canAllocate: bool)
    requires IsTurn(turn, w) && Ready(w, t, st, fast) && turn(t, st, canAllocate).0.Continue?
    ensures var r := turn(t, st, canAllocate); Ready(w, r.1, r.0.st, Onward(OneFrame(w.o, w.mem, fast), r.0.st))
  {
    TurnKeepsReady(turn, w, t, st, fast, canAllocate);
  }

  lemma FollowsTurn(o: Oracle, r: (Walk, Table), f: Walk, rest: (Walk, Table), f': Walk, pc: word)
    requires Agrees(o, rest, f') && r == (Walk([pc] + rest.0.addrs, rest.0.status), rest.1)
    requires f == Walk([], Unpredicted) || f == Walk([pc] + f'.addrs, f'.status)
    ensures Agrees(o, r, f)
  {
  }

  lemma FollowsStop(o: Oracle, t: Table, status: Status, f: Walk)
    requires Inv(t, o) && (status == NoInfo || f == Walk([], Unpredicted) || f == Walk([], status))
    ensures Agrees(o, (Walk([], status), t), f)
  {
  }

  /** The trace from st, and the table it leaves, against the fast walk from fast. */
  ghost predicate Follows(turn: TurnFn, w: World, t: Table, alloc: nat -> bool, st: WalkState, fast: WalkState, n: nat) {
    Agrees(w.o, Iterate(turn, alloc, t, st, n), FastWalk(w.o, w.mem, fast, n))
  }

  /** The turn goes on: the trace follows the fast walk if the rest of it does. */
  lemma FollowsOn(turn: TurnFn, w: World, t: Table, alloc: nat -> bool, st: WalkState, fast: WalkState, n: nat)
    requires IsTurn(turn, w) && Ready(w, t, st, fast) && n > 0 && turn(t, st, alloc(n)).0.Continue?
    requires var r := turn(t, st, alloc(n));
      Follows(turn, w, r.1, alloc, r.0.st, Onward(OneFrame(w.o, w.mem, fast), r.0.st), n - 1)
    ensures Follows(turn, w, t, alloc, st, fast, n)
  {
    var r := turn(t, st, alloc(n));
    var fast' := Onward(OneFrame(w.o, w.mem, fast), r.0.st);
    TurnKeepsReady(turn, w, t, st, fast, alloc(n));
    FastUnfolds(w.o, w.mem, fast, n);
    FollowsTurn(w.o, Iterate(turn, alloc, t, st, n), FastWalk(w.o, w.mem, fast, n),
                Iterate(turn, alloc, r.1, r.0.st, n - 1), FastWalk(w.o, w.mem, fast', n - 1), r.0.st.pc);
  }

  lemma FollowsEnd(turn: TurnFn, w: World, t: Table, alloc: nat -> bool, st: WalkState, fast: WalkState, n: nat)
    requires IsTurn(turn, w) && Ready(w, t, st, fast) && (n > 0 ==> turn(t, st, alloc(n)).0.Stop?)
    ensures Follows(turn, w, t, alloc, st, fast, n)
  {
    if n > 0 {
      var r := turn(t, st, alloc(n));
      TurnKeepsReady(turn, w, t, st, fast, alloc(n));
      FastUnfolds(w.o, w.mem, fast, n);
      FollowsStop(w.o, r.1, r.0.status, FastWalk(w.o, w.mem, fast, n));
    }
  }

  /** Whatever a well-formed table holds, the trace is the fast walk's, as far as that is predicted. */
  lemma {:induction false} IterateFollows(turn: TurnFn, w: World, t: Table, alloc: nat -> bool, st: WalkState, fast: WalkState, n: nat)
    requires IsTurn(turn, w) && Ready(w, t, st, fast)
    ensures Follows(turn, w, t, alloc, st, fast, n)
    decreases n
  {
    if n > 0 && turn(t, st, alloc(n)).0.Continue? {
      var r := turn(t, st, alloc(n));
      NextReady(turn, w, t, st, fast, alloc(n));
      IterateFollows(turn, w, r.1, alloc, r.0.st, Onward(OneFrame(w.o, w.mem, fast), r.0.st), n - 1);
      FollowsOn(turn, w, t, alloc, st, fast, n);
    } else {
      FollowsEnd(turn, w, t, alloc, st, fast, n);
    }
  }

  /** With memory for every expansion no trace ends for want of it. */
  lemma {:induction false} MemoryIsEnough(turn: TurnFn, w: World, t: Table, alloc: nat -> bool, st: WalkState, n: nat)
    requires IsTurn(turn, w) && Ready(w, t, st, st) && forall k :: alloc(k)
    ensures Iterate(turn, alloc, t, st, n).0.status != NoInfo
    decreases n
  {
    if n > 0 {
      var r := turn(t, st, alloc(n));
      TurnKeepsReady(turn, w, t, st, st, alloc(n));
      if r.0.Continue? {
        MemoryIsEnough(turn, w, r.1, alloc, r.0.st, n - 1);
      }
    }
  }

  /** One turn of the loop as a function. */
  function TurnOf(w: World): TurnFn {
    (t: Table, st: WalkState, canAllocate: bool) =>
      if Shape(t) && st.x30.Known? then TableFrame(w, t, st, canAllocate) else (Stop(Invalid), t)
  }

  lemma TurnOfIsTurn(w: World)
    ensures IsTurn(TurnOf(w), w)
  {
  }

  /** The walk on a table by whatever function is its turn. */
  lemma WalkByTurn(turn: TurnFn, w: World, t: Table, alloc: nat -> bool, st: WalkState, n: nat)
    requires IsTurn(turn, w) && Shape(t) && st.x30.Known?
    ensures TableWalk(w, t, alloc, st, n) == Iterate(turn, alloc, t, st, n)
  {
    IterateIsTableWalk(turn, w, t, alloc, st, n);
    assert IsRest(TableWalk(w, t, alloc, st, n), w, t, alloc, st, n);
  }

  lemma SomeTurn(w: World) returns (turn: TurnFn)
    ensures IsTurn(turn, w)
  {
    turn := TurnOf(w);
    TurnOfIsTurn(w);
  }

  /** The same of a whole trace. */
  lemma TraceFollows(w: World, t: Table, alloc: nat -> bool, st: WalkState, n: nat)
    requires Inv(t, w.o) && st.x30.Known? && LookupPc(st.pc, st.usePrevInstr) != 0
    ensures Agrees(w.o, TableWalk(w, t, alloc, st, n), FastWalk(w.o, w.mem, st, n))
    ensures (forall k :: alloc(k)) ==> TableWalk(w, t, alloc, st, n).0.status != NoInfo
  {
    var turn := SomeTurn(w);
    WalkByTurn(turn, w, t, alloc, st, n);
    IterateFollows(turn, w, t, alloc, st, st, n);
    if forall k :: alloc(k) {
      MemoryIsEnough(turn, w, t, alloc, st, n);
    }
  }
}
