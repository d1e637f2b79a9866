/**
 The step aarch64 takes when DWARF has no answer: find the caller through the
 frame record or the link register, as the prologue scan says.
 */
module Fallback {
  import opened Machine
  import opened Locations
  import opened Descriptor
  import opened Prologue
  import opened PrologueRun
  import opened FrameScan

  const PC: int := 32
  const NUM_PRESERVED_REGS: int := 97

  datatype Outcome = Stepped | Finished | BadRegister

  /** The frame description a cursor keeps beside its locations. */
  datatype Info = Info(kind: FrameType, cfaRegSp: bool, cfaRegOffset: int, fpOffset: int, lrOffset: int, spOffset: int)

  datatype State = State(loc: seq<Loc>, ip: word, cfa: word, info: Info)

  predicate ValidState(st: State) {
    |st.loc| == NUM_PRESERVED_REGS
  }

  // ----- what the step should do -----

  /** Every register forgotten but those the record at addr holds. */
  function RecordLocs(addr: word): seq<Loc> {
    seq(NUM_PRESERVED_REGS, i requires 0 <= i < NUM_PRESERVED_REGS =>
      if i == FP then Mem(addr) else if i == LR || i == PC then Mem(U64(addr + 8)) else Null)
  }

  function ThroughRecord(mem: Memory, st: State, addr: word): (State, Outcome) {
    var moved := st.(loc := RecordLocs(addr));
    match Load(mem, addr)
    case None => (moved, BadRegister)
    case Some(cfa) =>
      match Load(mem, U64(addr + 8))
      case None => (moved.(cfa := cfa), BadRegister)
      case Some(ip) => (moved.(cfa := cfa, ip := ip), Stepped)
  }

  function ThroughLink(mem: Memory, st: State, offset: int): (State, Outcome)
    requires ValidState(st)
  {
    var link := st.loc[LR];
    var info := Info(st.info.kind, offset > 0, Field30(offset), -1, -1, -1);
    var moved := st.(loc := st.loc[PC := link][LR := Null], info := info);
    if link.Null? then (moved.(ip := 0), Finished)
    else
      match Fetch(mem, link)
      case None => (moved, BadRegister)
      case Some(ip) =>
        (moved.(ip := ip, cfa := if offset > 0 then U64(st.cfa + offset) else st.cfa),
         if ip == 0 then Finished else Stepped)
  }

  /** lastFp is x29 as the step read it before it tried DWARF, 0 if it could not. */
  function ThroughFp(mem: Memory, st: State, lastFp: word): (State, Outcome)
    requires ValidState(st)
  {
    match Fetch(mem, st.loc[FP])
    case None => ThroughRecord(mem, st, lastFp)
    case Some(fp) => if fp == 0 then (st.(ip := 0), Finished) else ThroughRecord(mem, st, fp)
  }

  function ThroughSp(mem: Memory, st: State, offset: int): (State, Outcome)
    requires ValidState(st)
  {
    match Fetch(mem, st.loc[SP])
    case None => (st, BadRegister)
    case Some(sp) =>
      var info := st.info.(cfaRegSp := true, cfaRegOffset := Field30(offset));
      ThroughRecord(mem, st.(info := info), U64(sp + offset))
  }

  function FellBack(mem: Memory, st: State, fs: FrameState, lastFp: word): (State, Outcome)
    requires ValidState(st)
  {
    match fs.loc
    case AtFp => ThroughFp(mem, st, lastFp)
    case AtSpOffset => ThroughSp(mem, st, fs.offset)
    case NoRecord => ThroughLink(mem, st, fs.offset)
  }

  /** The cursor with its descriptor marked by how the step goes about it. */
  function Tried(st: State, isPlt: bool): (st': State)
    ensures ValidState(st) ==> ValidState(st')
  {
    st.(info := st.info.(kind := if isPlt then Standard else Guessed))
  }

  // ----- the step in place -----

  class Cursor {
    const loc: array<Loc>
    var ip: word
    var cfa: word
    var info: Info

    ghost predicate Valid()
      reads this
    {
      loc.Length == NUM_PRESERVED_REGS
    }

    ghost function Now(): (st: State)
      reads this, loc
      requires Valid()
      ensures ValidState(st)
    {
      State(loc[..], ip, cfa, info)
    }

    /** Forget all registers and find x29, x30 and pc in the record at addr. */
    method UseRecord(mem: Memory, addr: word) returns (r: Outcome)
      requires Valid()
      modifies this, loc
      ensures Valid() && (Now(), r) == ThroughRecord(mem, old(Now()), addr)
    {
      for i := 0 to loc.Length
        invariant forall k :: 0 <= k < i ==> loc[k] == Null
        invariant ip == old(ip) && cfa == old(cfa) && info == old(info)
      {
        loc[i] := Null;
      }
      loc[FP] := Mem(addr);
      loc[LR] := Mem(U64(addr + 8));
      loc[PC] := loc[LR];
      assert loc[..] == RecordLocs(addr);
      var saved := Fetch(mem, loc[FP]);
      if saved.None? {
        return BadRegister;
      }
      cfa := saved.value;
      var back := Fetch(mem, loc[PC]);
      if back.None? {
        return BadRegister;
      }
      ip := back.value;
      r := Stepped;
    }

    method UseLink(mem: Memory, offset: int) returns (r: Outcome)
      requires Valid()
      modifies this, loc
      ensures Valid() && (Now(), r) == ThroughLink(mem, old(Now()), offset)
    {
      info := Info(info.kind, offset > 0, Field30(offset), -1, -1, -1);
      loc[PC] := loc[LR];
      loc[LR] := Null;
      if !loc[PC].Null? {
        var link := Fetch(mem, loc[PC]);
        if link.None? {
          return BadRegister;
        }
        ip := link.value;
        if offset > 0 {
          cfa := U64(cfa + offset);
        }
      } else {
        ip := 0;
      }
      r := if ip == 0 then Finished else Stepped;
    }

    method UseFp(mem: Memory, lastFp: word) returns (r: Outcome)
      requires Valid()
      modifies this, loc
      ensures Valid() && (Now(), r) == ThroughFp(mem, old(Now()), lastFp)
    {
      var fp := Fetch(mem, loc[FP]);
      if fp == Some(0) {
        ip := 0;
        return Finished;
      }
      r := UseRecord(mem, if fp.Some? then fp.value else lastFp);
    }

    method UseSp(mem: Memory, offset: int) returns (r: Outcome)
      requires Valid()
      modifies this, loc
      ensures Valid() && (Now(), r) == ThroughSp(mem, old(Now()), offset)
    {
      var sp := Fetch(mem, loc[SP]);
      if sp.None? {
        return BadRegister;
      }
      info := info.(cfaRegSp := true, cfaRegOffset := Field30(offset));
      r := UseRecord(mem, U64(sp.value + offset));
    }

    /** Go on by what the scan found. */
    method Use(mem: Memory, fs: FrameState, lastFp: word) returns (r: Outcome)
      requires Valid()
      modifies this, loc
      ensures Valid() && (Now(), r) == FellBack(mem, old(Now()), fs, lastFp)
    {
      if fs.loc == AtFp {
        r := UseFp(mem, lastFp);
      } else if fs.loc == AtSpOffset {
        r := UseSp(mem, fs.offset);
      } else {
        r := UseLink(mem, fs.offset);
      }
    }

    /** Note in the descriptor how the step goes about it, and scan the procedure. */
    method Scan(text: Text, name: Option<word>, isPlt: bool) returns (fs: FrameState)
      requires Valid() && WrapGuarded(text, ip)
      modifies this`info
      ensures Valid() && Now() == Tried(old(Now()), isPlt)
      ensures isPlt || name.None? ==> fs == NO_RECORD
      ensures !isPlt && name.Some? ==> fs == StateAt(text, U64(old(ip) - name.value), old(ip))
    {
      info := info.(kind := if isPlt then Standard else Guessed);
      fs := GetFrameState(text, ip, name, isPlt);
    }

    /** The part of unw_step after dwarf_step has found no information; found is what the scan finds. */
    method FallBack(mem: Memory, text: Text, name: Option<word>, isPlt: bool, lastFp: word)
      returns (r: Outcome, ghost found: FrameState)
      requires Valid() && WrapGuarded(text, ip)
      modifies this, loc
      ensures Valid()
      ensures isPlt || name.None? ==> found == NO_RECORD
      ensures !isPlt && name.Some? ==> found == StateAt(text, U64(old(ip) - name.value), old(ip))
      ensures (Now(), r) == FellBack(mem, Tried(old(Now()), isPlt), found, lastFp)
    {
      var fs := Scan(text, name, isPlt);
      found := fs;
      r := Use(mem, fs, lastFp);
    }
  }

  // ----- the step finds the caller -----

  /** The cursor describes the machine. */
  ghost predicate Describes(st: State, cpu: Cpu) {
    && ValidState(st)
    && st.loc[FP] == Value(cpu.fp) && st.loc[LR] == Value(cpu.lr) && st.loc[SP] == Value(cpu.sp)
    && st.cfa == cpu.sp
  }

  /** The cursor is at the caller: its pc, and the x29 it had on entry to the procedure. */
  ghost predicate AtCaller(mem: Memory, st: State, entry: Cpu) {
    && ValidState(st)
    && st.ip == entry.lr && Fetch(mem, st.loc[PC]) == Some(entry.lr)
    && Fetch(mem, st.loc[FP]) == Some(entry.fp)
  }

  lemma RecordLeadsToCaller(st: State, addr: word, entry: Cpu, mem: Memory)
    requires RecordAt(addr, entry, mem)
    ensures ThroughRecord(mem, st, addr).1 == Stepped
    ensures ThroughRecord(mem, st, addr).0.cfa == entry.fp
    ensures AtCaller(mem, ThroughRecord(mem, st, addr).0, entry)
  {
  }

  /** What the step gives where the tracker's answer is sound: the CFA is the caller's x29 or the undone SP. */
  ghost predicate Recovers(mem: Memory, st: State, r: Outcome, fs: FrameState, cpu: Cpu, entry: Cpu) {
    && AtCaller(mem, st, entry)
    && (fs.loc != NoRecord ==> r == Stepped && st.cfa == entry.fp)
    && (fs.loc == NoRecord ==> && r == (if entry.lr == 0 then Finished else Stepped)
                               && (fs.offset >= 0 ==> st.cfa == U64(cpu.sp + fs.offset)))
  }

  lemma SoundRecordRecovers(st: State, cpu: Cpu, entry: Cpu, fs: FrameState, lastFp: word)
    requires Describes(st, cpu) && RecordSound(fs, entry, cpu)
    requires fs.loc == AtFp ==> cpu.fp != 0
    ensures Recovers(cpu.mem, FellBack(cpu.mem, st, fs, lastFp).0, FellBack(cpu.mem, st, fs, lastFp).1, fs, cpu, entry)
  {
    match fs.loc
    case AtFp => RecordLeadsToCaller(st, cpu.fp, entry, cpu.mem);
    case AtSpOffset =>
      var info := st.info.(cfaRegSp := true, cfaRegOffset := Field30(fs.offset));
      RecordLeadsToCaller(st.(info := info), U64(cpu.sp + fs.offset), entry, cpu.mem);
    case NoRecord =>
  }

  /** Where x29 cannot be read the record is looked for where it was before DWARF was tried. */
  lemma LastFpServes(st: State, fs: FrameState, lastFp: word, entry: Cpu, mem: Memory)
    requires ValidState(st) && fs.loc == AtFp && Fetch(mem, st.loc[FP]) == None && RecordAt(lastFp, entry, mem)
    ensures FellBack(mem, st, fs, lastFp).1 == Stepped && AtCaller(mem, FellBack(mem, st, fs, lastFp).0, entry)
  {
    RecordLeadsToCaller(st, lastFp, entry, mem);
  }

  /** The chain ends at an x29 of 0 that points to a record, or at a link register that is 0 or has no place. */
  lemma FinishedIff(mem: Memory, st: State, fs: FrameState, lastFp: word)
    requires ValidState(st)
    ensures FellBack(mem, st, fs, lastFp).1 == Finished <==>
      || (fs.loc == AtFp && Fetch(mem, st.loc[29]) == Some(0))
      || (fs.loc == NoRecord && (st.loc[30].Null? || Fetch(mem, st.loc[30]) == Some(0)))
    ensures FellBack(mem, st, fs, lastFp).1 == Finished ==> FellBack(mem, st, fs, lastFp).0.ip == 0
  {
  }

  /** The run from start to ip executed exactly the instructions the scan reads. */
  ghost predicate Scanned(text: Text, start: word, ip: word, es: seq<Event>) {
    Readable(text, start, ip) && Executes(es, Code(text, start, Fetched(text, start, ip)))
  }

  lemma ScanOfRun(text: Text, start: word, ip: word, es: seq<Event>)
    requires Scanned(text, start, ip, es)
    ensures StateAt(text, start, ip) == Merged(SpAfter(es), RecordAfter(es))
  {
    ScanSees(es, Code(text, start, Fetched(text, start, ip)));
  }

  /** The step undoes the run; without a record its CFA is the entry SP exactly when the moves the scan does not see cancel out. */
  ghost predicate Undone(cpu: Cpu, entry: Cpu, t: SpTrack, moved: int, st: State, r: Outcome, fs: FrameState) {
    && Recovers(cpu.mem, st, r, fs, cpu, entry)
    && (fs.loc == NoRecord && t.state != SpUnknown ==> (st.cfa == entry.sp <==> moved % TWO_64 == 0))
  }

  lemma SoundAnswersUndo(cpu: Cpu, entry: Cpu, st: State, lastFp: word, t: SpTrack, moved: int, f: FrameState)
    requires Describes(st, cpu) && RecordSound(f, entry, cpu) && SpSound(t, entry.sp, cpu.sp, moved)
    requires f.loc == AtFp ==> cpu.fp != 0
    ensures var fell := FellBack(cpu.mem, st, Merged(t, f), lastFp);
      Undone(cpu, entry, t, moved, fell.0, fell.1, Merged(t, f))
  {
    SoundRecordRecovers(st, cpu, entry, Merged(t, f), lastFp);
    if t.state != SpUnknown {
      UndoneIff(t, entry.sp, cpu.sp, moved);
    }
  }

  /** The scan and the step together: a run that keeps the frame record convention is undone. */
  lemma FallbackFindsCaller(text: Text, start: word, ip: word, es: seq<Event>, entry: Cpu, st: State, lastFp: word)
    requires Scanned(text, start, ip, es) && Conforming(es, entry) && StoredAsKnown(PhaseAfter(es, entry))
    requires Describes(st, After(es, entry))
    requires StateAt(text, start, ip).loc == AtFp ==> After(es, entry).fp != 0
    ensures var fs := StateAt(text, start, ip);
      var fell := FellBack(After(es, entry).mem, st, fs, lastFp);
      Undone(After(es, entry), entry, SpAfter(es), AllUnseen(es), fell.0, fell.1, fs)
  {
    ScanOfRun(text, start, ip, es);
    RecordTrackerSound(es, entry);
    SpTrackerSound(es, entry);
    SoundAnswersUndo(After(es, entry), entry, st, lastFp, SpAfter(es), AllUnseen(es), RecordAfter(es));
  }
}
