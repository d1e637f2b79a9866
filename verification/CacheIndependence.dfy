/**
 When a trace depends on what the cache already holds. A frame that keeps LR is
 followed through loc[X30], and only a cache miss moves that location, so two
 well-formed caches can give two traces of the same stack.
 */
module CacheIndependence {
  import opened Machine
  import opened Locations
  import opened Descriptor
  import opened TraceCache
  import opened FastTrace
  import opened TraceRefinement
  import opened OtherFrames
  import Prologue
  import Fallback

  function FrameOf(o: Oracle, pc: word): Frame {
    Describe(pc, o(pc))
  }

  /** The frame's return address is looked for in loc[X30], unless a signal frame left one. */
  predicate ReadsLink(f: Frame) {
    !f.lastFrame && (f.frameType == Standard || f.frameType == Guessed) && f.lrCfaOffset == -1
  }

  function PcOf(st: WalkState): word {
    LookupPc(st.pc, st.usePrevInstr)
  }

  function Plenty(): nat -> bool {
    (k: nat) => true
  }

  /** With memory to grow, the two tables give the same trace. */
  ghost predicate SameTrace(w: World, t: Table, t': Table, st: WalkState, n: nat)
    requires Shape(t) && Shape(t') && st.x30.Known?
  {
    TableWalk(w, t, Plenty(), st, n).0 == TableWalk(w, t', Plenty(), st, n).0
  }

  ghost predicate CanStart(st: WalkState) {
    st.x30.Known? && st.lr == 0 && st.sp == st.cfa && PcOf(st) != 0
  }

  // ----- a walk that reads loc[X30] only while it has not moved -----

  /** A predicted walk gives the same trace on any two well-formed tables. */
  lemma PredictedSameTrace(w: World, t: Table, t': Table, st: WalkState, n: nat)
    requires Inv(t, w.o) && Inv(t', w.o) && CanStart(st)
    requires FastWalk(w.o, w.mem, st, n).status != Unpredicted
    ensures SameTrace(w, t, t', st, n)
  {
    TraceFollows(w, t, Plenty(), st, n);
    TraceFollows(w, t', Plenty(), st, n);
  }

  /**
   Every frame of the walk that needs loc[X30] finds it where it was at the start:
   it and all frames before it keep it. `moved` says that one before has not.
   */
  ghost predicate LinkInPlace(o: Oracle, mem: Memory, st: WalkState, moved: bool, n: nat)
    decreases n
  {
    n == 0 ||
    (var f, moved' := FrameOf(o, PcOf(st)), moved || !KeepsX30(o(PcOf(st)));
     && (ReadsLink(f) && st.lr == 0 ==> !moved')
     && (OneFrame(o, mem, st).Continue? ==> LinkInPlace(o, mem, OneFrame(o, mem, st).st, moved', n - 1)))
  }

  lemma FrameNeedsLinkIff(o: Oracle, mem: Memory, st: WalkState)
    ensures OneFrame(o, mem, st) == Stop(Unpredicted) <==>
      ReadsLink(FrameOf(o, PcOf(st))) && st.lr == 0 && X30After(o(PcOf(st)), st.x30).Moved?
    ensures OneFrame(o, mem, st).Continue? ==> OneFrame(o, mem, st).st.x30 == X30After(o(PcOf(st)), st.x30)
  {
    StepNeedsLinkIff(mem, FrameOf(o, PcOf(st)), st.(x30 := X30After(o(PcOf(st)), st.x30)));
  }

  lemma StepNeedsLinkIff(mem: Memory, f: Frame, st: WalkState)
    ensures FrameStep(mem, f, st) == Stop(Unpredicted) <==> ReadsLink(f) && st.lr == 0 && st.x30.Moved?
    ensures FrameStep(mem, f, st).Continue? ==> FrameStep(mem, f, st).st.x30 == st.x30
  {
  }

  /** The walk is predicted if and only if its frames find the link in place. */
  lemma {:induction false} PredictedIff(o: Oracle, mem: Memory, st: WalkState, n: nat)
    ensures FastWalk(o, mem, st, n).status != Unpredicted <==> LinkInPlace(o, mem, st, st.x30.Moved?, n)
    decreases n
  {
    if n > 0 {
      FrameNeedsLinkIff(o, mem, st);
      FastUnfolds(o, mem, st, n);
      if OneFrame(o, mem, st).Continue? {
        PredictedIff(o, mem, OneFrame(o, mem, st).st, n - 1);
      }
    }
  }

  /** A walk whose frames find the link in place gives the same trace on any two well-formed tables. */
  lemma InPlaceSameTrace(w: World, t: Table, t': Table, st: WalkState, n: nat)
    requires Inv(t, w.o) && Inv(t', w.o) && CanStart(st)
    requires LinkInPlace(w.o, w.mem, st, false, n)
    ensures SameTrace(w, t, t', st, n)
  {
    PredictedIff(w.o, w.mem, st, n);
    PredictedSameTrace(w, t, t', st, n);
  }

  // ----- what the frames actually stepped answer -----

  /** The fallback step, after a scan that found fs, is what the oracle says, and leaves loc[X30] as the world says. */
  ghost predicate ScanAnswers(w: World, st: WalkState, fs: Prologue.FrameState)
    requires st.x30.Known? && w.o(PcOf(st)).ByScan?
  {
    var r := w.o(PcOf(st));
    var fell := Fallback.FellBack(w.mem, CursorAt(st, r.plt), fs, st.fp);
    && fell.1 != Fallback.BadRegister && r.ended == (fell.1 == Fallback.Finished)
    && fell.0.info.cfaRegSp == r.baseIsSp && fell.0.info.cfaRegOffset == Field30(r.offset)
    && Fallback.ValidState(fell.0) && w.left(PcOf(st), st) == Fetch(w.mem, fell.0.loc[LR])
  }

  /** What a step at this state answers is what the oracle says of its pc; failed and signal steps are free. */
  ghost predicate Answers(w: World, st: WalkState)
    requires st.x30.Known?
  {
    match w.o(PcOf(st))
    case ByRules(rs, _) =>
      SlowStep(w.mem, rs, SlowStart(st.pc, st.cfa, st.fp, st.usePrevInstr, st.x30.value)).0 == w.o(PcOf(st))
    case ByScan(_, _, _, _) => st.fp != 0 && exists fs :: ScanAnswers(w, st, fs)
    case EndOfChain => st.fp == 0
    case _ => true
  }

  /** The key is in the table, so that its frame is not stepped. */
  ghost predicate Cached(t: Table, pc: word) {
    exists i :: 0 <= i < |t.slots| && Occupied(t.slots, i) && t.slots[i].virtualAddress == pc
  }

  /** Every frame the trace steps answers as the oracle says. */
  ghost predicate Honest(turn: TurnFn, w: World, t: Table, st: WalkState, n: nat)
    decreases n
  {
    n == 0 ||
    (&& st.x30.Known?
     && (!Cached(t, PcOf(st)) ==> Answers(w, st))
     && (turn(t, st, true).0.Continue? ==> Honest(turn, w, turn(t, st, true).1, turn(t, st, true).0.st, n - 1)))
  }

  // ----- one turn, hit or missed -----

  /** A turn whose frame is in the cache leaves loc[X30] alone. */
  lemma TurnOnHit(turn: TurnFn, w: World, t: Table, st: WalkState)
    requires IsTurn(turn, w) && Inv(t, w.o) && st.x30.Known? && LookupPc(st.pc, st.usePrevInstr) in Contents(t)
    requires LookupPc(st.pc, st.usePrevInstr) != 0
    ensures turn(t, st, true).0 == FrameStep(w.mem, FrameOf(w.o, LookupPc(st.pc, st.usePrevInstr)), st)
    ensures Inv(turn(t, st, true).1, w.o)
  {
    var pc := LookupPc(st.pc, st.usePrevInstr);
    DecideByContents(t, w.o, pc, true);
    LookupKeepsInv(t, w.o, pc, true);
    assert turn(t, st, true) == TableFrame(w, t, st, true);
  }

  /** A turn whose frame keeps loc[X30] leaves it alone, hit or miss. */
  lemma TurnOnKeeper(turn: TurnFn, w: World, t: Table, st: WalkState)
    requires IsTurn(turn, w) && Inv(t, w.o) && st.x30.Known? && KeepsX30(w.o(LookupPc(st.pc, st.usePrevInstr)))
    requires LookupPc(st.pc, st.usePrevInstr) != 0
    ensures turn(t, st, true).0 == FrameStep(w.mem, FrameOf(w.o, LookupPc(st.pc, st.usePrevInstr)), st)
  {
    LookupKeepsInv(t, w.o, LookupPc(st.pc, st.usePrevInstr), true);
    assert turn(t, st, true) == TableFrame(w, t, st, true);
  }

  /** A turn whose frame is not in the cache moves loc[X30] where the frame's step leaves it. */
  lemma TurnOnMiss(turn: TurnFn, w: World, t: Table, st: WalkState)
    requires IsTurn(turn, w) && Inv(t, w.o) && st.x30.Known? && LookupPc(st.pc, st.usePrevInstr) !in Contents(t)
    requires LookupPc(st.pc, st.usePrevInstr) != 0 && !KeepsX30(w.o(LookupPc(st.pc, st.usePrevInstr)))
    ensures var pc := LookupPc(st.pc, st.usePrevInstr);
      turn(t, st, true).0 == FrameStep(w.mem, FrameOf(w.o, pc), st.(x30 := Known(LinkLeft(w, pc, st))))
    ensures Inv(turn(t, st, true).1, w.o)
  {
    var pc := LookupPc(st.pc, st.usePrevInstr);
    DecideByContents(t, w.o, pc, true);
    LookupKeepsInv(t, w.o, pc, true);
    assert turn(t, st, true) == TableFrame(w, t, st, true);
  }

  lemma OneTurn(turn: TurnFn, t: Table, st: WalkState, n: nat)
    requires n == 1
    ensures Iterate(turn, Plenty(), t, st, n).0 == Recorded(turn(t, st, true).0)
  {
  }

  lemma TwoTurns(turn: TurnFn, t: Table, st: WalkState, n: nat)
    requires n == 2 && turn(t, st, true).0.Continue?
    ensures var r := turn(t, st, true);
      var next := Recorded(turn(r.1, r.0.st, true).0);
      Iterate(turn, Plenty(), t, st, n).0 == Walk([r.0.st.pc] + next.addrs, next.status)
  {
    var r := turn(t, st, true);
    OneTurn(turn, r.1, r.0.st, n - 1);
  }

  /** Two link registers with which a frame that reads one goes the same way. */
  ghost predicate SameWay(mem: Memory, g: Frame, st: WalkState, a: Option<word>, b: Option<word>) {
    || a == b
    || (a.Some? && b.Some? && (SavedFpUnreadable(mem, g, st) || (a.value < LOWEST_PC && b.value < LOWEST_PC)))
  }

  ghost predicate SavedFpUnreadable(mem: Memory, g: Frame, st: WalkState) {
    g.fpCfaOffset != -1 && Load(mem, U64(U64((if g.cfaRegSp then st.sp else st.fp) + g.cfaRegOffset) + g.fpCfaOffset)).None?
  }

  /** What one turn records, and how it ends the trace if it does. */
  function Recorded(next: Next): Walk {
    match next
    case Stop(s) => Walk([], s)
    case Continue(st') => Walk([st'.pc], Ok)
  }

  lemma SameWayIff(mem: Memory, g: Frame, st: WalkState, a: Option<word>, b: Option<word>)
    requires ReadsLink(g) && st.lr == 0
    ensures Recorded(FrameStep(mem, g, st.(x30 := Known(a)))) == Recorded(FrameStep(mem, g, st.(x30 := Known(b))))
      <==> SameWay(mem, g, st, a, b)
  {
    ReadStep(mem, g, st, a);
    ReadStep(mem, g, st, b);
  }

  lemma ReadStep(mem: Memory, g: Frame, st: WalkState, a: Option<word>)
    requires ReadsLink(g) && st.lr == 0
    ensures Recorded(FrameStep(mem, g, st.(x30 := Known(a)))) ==
      if a.None? then Walk([], StopUnwind)
      else if SavedFpUnreadable(mem, g, st) then Walk([], BadAccess)
      else if a.value < LOWEST_PC then Walk([], Ok)
      else Walk([a.value], Ok)
  {
  }

  // ----- two caches -----

  function Empty(): (t: Table)
    ensures Shape(t)
  {
    Table(Buckets(Pow2(HASH_MIN_BITS)), HASH_MIN_BITS, 0)
  }

  function Adding(o: Oracle, t: Table, pc: word): (t': Table)
    requires Shape(t)
    ensures Shape(t')
  {
    Lookup(t, pc, FrameOf(o, pc), true).0
  }

  lemma OneKey(o: Oracle, p: word)
    requires p != 0
    ensures Inv(Empty(), o) && Contents(Empty()) == map[]
    ensures Inv(Adding(o, Empty(), p), o) && Contents(Adding(o, Empty(), p)) == map[p := FrameOf(o, p)]
    ensures Adding(o, Empty(), p).used <= 1 && Adding(o, Empty(), p).logSize >= HASH_MIN_BITS
  {
    NoKeys(o);
    LookupKeepsInv(Empty(), o, p, true);
    LookupRefinesMap(Empty(), o, p, true);
  }

  lemma NoKeys(o: Oracle)
    ensures Inv(Empty(), o) && Contents(Empty()) == map[]
    ensures Empty().used == 0 && Empty().logSize == HASH_MIN_BITS
  {
    FreshTable(HASH_MIN_BITS, o);
  }

  lemma TwoKeys(o: Oracle, p: word, q: word)
    requires p != 0 && q != 0 && p != q
    ensures var t := Adding(o, Empty(), p);
      && Inv(Adding(o, t, q), o)
      && Contents(Adding(o, t, q)) == map[p := FrameOf(o, p)][q := FrameOf(o, q)]
  {
    var t := Adding(o, Empty(), p);
    OneKey(o, p);
    SecondKeyFits(o, t, p, q);
    LookupKeepsInv(t, o, q, true);
    LookupRefinesMap(t, o, q, true);
  }

  /** Two probes cannot both meet the only key. */
  lemma SecondKeyFits(o: Oracle, t: Table, p: word, q: word)
    requires Inv(t, o) && Contents(t) == map[p := FrameOf(o, p)] && t.used <= 1
    ensures !MustExpand(t, q)
  {
    RoomForProbes(t.logSize);
    var home := Home(q, t.logSize);
    var i, j := SlotAt(home, 0, |t.slots|), SlotAt(home, 1, |t.slots|);
    assert i != j;
    KeyOfSlot(t, i);
    KeyOfSlot(t, j);
    assert !Taken(t.slots, home, 0) || !Taken(t.slots, home, 1);
  }

  lemma KeyOfSlot(t: Table, i: nat)
    requires DistinctKeys(t.slots) && i < |t.slots|
    ensures Occupied(t.slots, i) ==> t.slots[i].virtualAddress in Contents(t)
  {
  }

  lemma CachedIff(t: Table, pc: word)
    requires DistinctKeys(t.slots)
    ensures Cached(t, pc) <==> pc in Contents(t)
  {
  }

  // ----- a frame that saves LR, then one that keeps it -----

  /** An ordinary frame off its CFA that saves LR and is not the last. */
  predicate SavesLink(o: Oracle, pc: word) {
    && o(pc).ByRules? && !o(pc).ended && IsStandard(o(pc).rules)
    && o(pc).rules.lr.CfaRel? && !MostNegative(o(pc).rules.lr) && !MostNegative(o(pc).rules.fp)
    && o(pc).rules.cfaOffset != TWO_63 && o(pc).rules.cfaOffset != 0
  }

  /** The descriptor of such a frame finds the CFA and the slot of LR where the rules do. */
  lemma SaverFields(o: Oracle, pc: word, base: word)
    requires SavesLink(o, pc)
    ensures var f, rs := FrameOf(o, pc), o(pc).rules;
      && !f.lastFrame && f.frameType == Standard && f.cfaRegSp == (rs.cfa == Reg(SP)) && f.lrCfaOffset != -1
      && U64(base + f.cfaRegOffset) == U64(base + rs.cfaOffset) != base
      && U64(U64(base + f.cfaRegOffset) + f.lrCfaOffset) == U64(U64(base + rs.cfaOffset) + rs.lr.val)
  {
    var f, rs := FrameOf(o, pc), o(pc).rules;
    assert f.cfaRegOffset == Field30(rs.cfaOffset) && f.lrCfaOffset == PackRegister(rs.lr, -1);
    FieldKeeps(rs.cfaOffset);
    OffsetModulo(base, rs.cfaOffset);
    SavedOffset(rs.lr, U64(base + rs.cfaOffset));
    OffsetMoves(base, rs.cfaOffset);
  }

  lemma OffsetMoves(base: word, v: word)
    requires v != 0
    ensures U64(base + v) != base
  {
  }

  lemma SavedLinkIsLeft(w: World, st: WalkState)
    requires SavesLink(w.o, PcOf(st)) && st.sp == st.cfa && st.x30.Known?
    ensures var f := FrameOf(w.o, PcOf(st));
      && !f.lastFrame && f.frameType == Standard && f.lrCfaOffset != -1 && !KeepsX30(w.o(PcOf(st)))
      && LinkLeft(w, PcOf(st), st) ==
           Load(w.mem, U64(U64((if f.cfaRegSp then st.sp else st.fp) + f.cfaRegOffset) + f.lrCfaOffset))
  {
    var rs := w.o(PcOf(st)).rules;
    SaverFields(w.o, PcOf(st), if rs.cfa == Reg(SP) then st.cfa else st.fp);
  }

  /** The state at the frame after st's, where the walk gets there. */
  function Second(w: World, st: WalkState): WalkState
    requires FrameStep(w.mem, FrameOf(w.o, PcOf(st)), st).Continue?
  {
    FrameStep(w.mem, FrameOf(w.o, PcOf(st)), st).st
  }

  /** The step through a frame that saves LR, whatever the link register. */
  lemma SaverStep(w: World, st: WalkState, x30: Option<word>)
    requires SavesLink(w.o, PcOf(st)) && CanStart(st)
    requires FrameStep(w.mem, FrameOf(w.o, PcOf(st)), st).Continue?
    ensures var st1 := Second(w, st);
      && st1.lr == 0 && st1.x30 == st.x30 && PcOf(st1) != 0
      && LinkLeft(w, PcOf(st), st) == Some(st1.pc)
      && FrameStep(w.mem, FrameOf(w.o, PcOf(st)), st.(x30 := Known(x30))) == Continue(st1.(x30 := Known(x30)))
  {
    SavedLinkIsLeft(w, st);
  }

  /** The stack goes from a frame that saves LR to one that keeps it, and the first frame's step is as the oracle says. */
  ghost predicate SaverThenKeeper(w: World, st: WalkState) {
    && CanStart(st) && Answers(w, st) && SavesLink(w.o, PcOf(st))
    && FrameStep(w.mem, FrameOf(w.o, PcOf(st)), st).Continue?
    && var p := PcOf(Second(w, st));
       ReadsLink(FrameOf(w.o, p)) && KeepsX30(w.o(p))
  }

  /** The cache that holds the second frame of the stack, and the cache that also holds the first. */
  function KeeperOnly(w: World, st: WalkState): (t: Table)
    requires FrameStep(w.mem, FrameOf(w.o, PcOf(st)), st).Continue?
    ensures Shape(t)
  {
    Adding(w.o, Empty(), PcOf(Second(w, st)))
  }

  function BothFrames(w: World, st: WalkState): (t: Table)
    requires FrameStep(w.mem, FrameOf(w.o, PcOf(st)), st).Continue?
    ensures Shape(t)
  {
    Adding(w.o, KeeperOnly(w, st), PcOf(st))
  }

  lemma KeeperTables(w: World, st: WalkState)
    requires SaverThenKeeper(w, st)
    ensures Inv(KeeperOnly(w, st), w.o) && Inv(BothFrames(w, st), w.o)
    ensures PcOf(st) !in Contents(KeeperOnly(w, st)) && PcOf(st) in Contents(BothFrames(w, st))
    ensures PcOf(Second(w, st)) in Contents(BothFrames(w, st))
  {
    SaverStep(w, st, None);
    SavedLinkIsLeft(w, st);
    var p := PcOf(Second(w, st));
    OneKey(w.o, p);
    TwoKeys(w.o, p, PcOf(st));
  }

  /** The first turn where the frame is not in the cache: loc[X30] becomes the slot it saved LR in. */
  lemma SaverMisses(turn: TurnFn, w: World, st: WalkState)
    requires IsTurn(turn, w) && SaverThenKeeper(w, st)
    ensures var st1 := Second(w, st);
      turn(KeeperOnly(w, st), st, true) == (Continue(st1.(x30 := Known(Some(st1.pc)))), BothFrames(w, st))
  {
    KeeperTables(w, st);
    SavedLinkIsLeft(w, st);
    TurnOnMiss(turn, w, KeeperOnly(w, st), st);
    SaverStep(w, st, LinkLeft(w, PcOf(st), st));
    assert turn(KeeperOnly(w, st), st, true) == TableFrame(w, KeeperOnly(w, st), st, true);
  }

  lemma SaverHits(turn: TurnFn, w: World, st: WalkState)
    requires IsTurn(turn, w) && SaverThenKeeper(w, st)
    ensures turn(BothFrames(w, st), st, true).0 == FrameStep(w.mem, FrameOf(w.o, PcOf(st)), st)
    ensures turn(BothFrames(w, st), st, true).1 == BothFrames(w, st)
  {
    KeeperTables(w, st);
    TurnOnHit(turn, w, BothFrames(w, st), st);
    LookupKeepsInv(BothFrames(w, st), w.o, PcOf(st), true);
    DecideByContents(BothFrames(w, st), w.o, PcOf(st), true);
    assert turn(BothFrames(w, st), st, true) == TableFrame(w, BothFrames(w, st), st, true);
  }

  /** The second turn, by whatever link register the first has left. */
  lemma KeeperTurn(turn: TurnFn, w: World, st: WalkState, x30: Option<word>)
    requires IsTurn(turn, w) && SaverThenKeeper(w, st)
    ensures var st1 := Second(w, st);
      turn(BothFrames(w, st), st1.(x30 := Known(x30)), true).0 ==
        FrameStep(w.mem, FrameOf(w.o, PcOf(st1)), st1.(x30 := Known(x30)))
  {
    KeeperTables(w, st);
    SaverStep(w, st, x30);
    TurnOnKeeper(turn, w, BothFrames(w, st), Second(w, st).(x30 := Known(x30)));
  }

  /** Only the first frame is stepped, and only where it is not cached; and it answers as the oracle says. */
  lemma KeeperRunsHonest(turn: TurnFn, w: World, st: WalkState, n: nat)
    requires IsTurn(turn, w) && SaverThenKeeper(w, st) && n == 2
    ensures Honest(turn, w, KeeperOnly(w, st), st, n) && Honest(turn, w, BothFrames(w, st), st, n)
  {
    var st1 := Second(w, st);
    KeeperTables(w, st);
    SaverMisses(turn, w, st);
    SaverHits(turn, w, st);
    SaverStep(w, st, None);
    CachedIff(BothFrames(w, st), PcOf(st1));
    HonestOnHit(turn, w, BothFrames(w, st), st1.(x30 := Known(Some(st1.pc))), n - 1);
    HonestOnHit(turn, w, BothFrames(w, st), st1, n - 1);
  }

  lemma HonestOnHit(turn: TurnFn, w: World, t: Table, st: WalkState, n: nat)
    requires n == 1 && st.x30.Known? && Cached(t, PcOf(st))
    ensures Honest(turn, w, t, st, n)
  {
    if turn(t, st, true).0.Continue? {
      assert Honest(turn, w, turn(t, st, true).1, turn(t, st, true).0.st, n - 1);
    }
  }

  /** What the second frame's turn records by a given link register. */
  function SecondRecorded(w: World, st: WalkState, x30: Option<word>): Walk
    requires FrameStep(w.mem, FrameOf(w.o, PcOf(st)), st).Continue?
  {
    Recorded(FrameStep(w.mem, FrameOf(w.o, PcOf(Second(w, st))), Second(w, st).(x30 := Known(x30))))
  }

  function Then(pc: word, rest: Walk): Walk {
    Walk([pc] + rest.addrs, rest.status)
  }

  lemma ThenSameIff(pc: word, a: Walk, b: Walk)
    ensures Then(pc, a) == Then(pc, b) <==> a == b
  {
    assert ([pc] + a.addrs)[1..] == a.addrs && ([pc] + b.addrs)[1..] == b.addrs;
  }

  lemma MissedTrace(w: World, st: WalkState, n: nat)
    requires SaverThenKeeper(w, st) && n == 2
    ensures TableWalk(w, KeeperOnly(w, st), Plenty(), st, n).0 ==
      Then(Second(w, st).pc, SecondRecorded(w, st, Some(Second(w, st).pc)))
  {
    var turn := SomeTurn(w);
    SaverMisses(turn, w, st);
    KeeperTurn(turn, w, st, Some(Second(w, st).pc));
    TwoTurns(turn, KeeperOnly(w, st), st, n);
    WalkByTurn(turn, w, KeeperOnly(w, st), Plenty(), st, n);
  }

  lemma HitTrace(w: World, st: WalkState, n: nat)
    requires SaverThenKeeper(w, st) && n == 2
    ensures TableWalk(w, BothFrames(w, st), Plenty(), st, n).0 ==
      Then(Second(w, st).pc, SecondRecorded(w, st, st.x30.value))
  {
    var turn := SomeTurn(w);
    SaverStep(w, st, None);
    SaverHits(turn, w, st);
    KeeperTurn(turn, w, st, st.x30.value);
    TwoTurns(turn, BothFrames(w, st), st, n);
    WalkByTurn(turn, w, BothFrames(w, st), Plenty(), st, n);
  }

  lemma SecondSameIff(w: World, st: WalkState)
    requires SaverThenKeeper(w, st)
    ensures SecondRecorded(w, st, Some(Second(w, st).pc)) == SecondRecorded(w, st, st.x30.value) <==>
      SameWay(w.mem, FrameOf(w.o, PcOf(Second(w, st))), Second(w, st), Some(Second(w, st).pc), st.x30.value)
  {
    SaverStep(w, st, None);
    SameWayIff(w.mem, FrameOf(w.o, PcOf(Second(w, st))), Second(w, st), Some(Second(w, st).pc), st.x30.value);
  }

  /**
   For every such stack: the caches that hold the second frame, without the first
   and with it, give the same trace if and only if the link register the trace
   started with leads where the saved one does.
   */
  lemma KeeperSameIff(w: World, st: WalkState, n: nat)
    requires SaverThenKeeper(w, st) && n == 2
    ensures SameTrace(w, KeeperOnly(w, st), BothFrames(w, st), st, n) <==>
      SameWay(w.mem, FrameOf(w.o, PcOf(Second(w, st))), Second(w, st), Some(Second(w, st).pc), st.x30.value)
  {
    MissedTrace(w, st, n);
    HitTrace(w, st, n);
    ThenSameIff(Second(w, st).pc, SecondRecorded(w, st, Some(Second(w, st).pc)), SecondRecorded(w, st, st.x30.value));
    SecondSameIff(w, st);
  }

  // ----- a stack for any two such frames -----

  const BASE: int := 0x1000

  function FirstState(pc: word, x30: Option<word>): WalkState {
    WalkState(pc, BASE, BASE, BASE, 0, false, Known(x30))
  }

  function FirstCfa(f: Frame): word {
    U64(BASE + f.cfaRegOffset)
  }

  function FirstFp(f: Frame, value: word): word {
    if f.fpCfaOffset != -1 then value else BASE
  }

  function SecondCfa(f: Frame, g: Frame, value: word): word {
    U64((if g.cfaRegSp then FirstCfa(f) else FirstFp(f, value)) + g.cfaRegOffset)
  }

  /** A stack on which frame f is followed by frame g, every slot they read holding the same value. */
  function Stack(f: Frame, g: Frame, value: word): Memory {
    map[U64(FirstCfa(f) + f.lrCfaOffset) := value][U64(FirstCfa(f) + f.fpCfaOffset) := value]
       [U64(SecondCfa(f, g, value) + g.fpCfaOffset) := value]
  }

  /** The stack of the example: q's frame saves LR, and p's, which it returns to, keeps it. */
  ghost predicate IsExample(w: World, q: word, p: word) {
    && q != 0 && SavesLink(w.o, q)
    && LOWEST_PC - 1 <= p < TWO_64 - 1 && ReadsLink(FrameOf(w.o, p)) && KeepsX30(w.o(p))
    && w.mem == Stack(FrameOf(w.o, q), FrameOf(w.o, p), p + 1)
  }

  /** The usual frame, CFA = SP + 16 with x29 and LR below it. */
  const SAVER: RuleTable :=
    RuleTable(LR, Reg(SP), 16, CfaRel(TWO_64 - 16), CfaRel(TWO_64 - 8), IsCfa)

  /** A procedure at its first instruction, CFA = SP with x29 and LR kept. */
  const LEAF: RuleTable := RuleTable(LR, Reg(SP), 0, Same, Same, IsCfa)

  /** A program of one usual procedure and one leaf is such an example. */
  lemma ExampleExists(q: word, p: word) returns (w: World)
    requires q != 0 && LOWEST_PC - 1 <= p < TWO_64 - 1 && p != q && q != TWO_64 - 1
    ensures IsExample(w, q, p) && !ReadsLink(FrameOf(w.o, TWO_64 - 1)) && forall pc :: Possible(w.o(pc))
  {
    var o := (pc: word) =>
      if pc == q then ByRules(SAVER, false) else if pc == p then ByRules(LEAF, false) else EndOfChain;
    w := World(o, (pc, st) => None, Stack(FrameOf(o, q), FrameOf(o, p), p + 1));
  }

  lemma ExampleSteps(w: World, q: word, p: word, x30: Option<word>)
    requires IsExample(w, q, p)
    ensures var f := FrameOf(w.o, q);
      FrameStep(w.mem, f, FirstState(q, x30)) ==
        Continue(WalkState(p + 1, FirstCfa(f), FirstFp(f, p + 1), FirstCfa(f), 0, true, Known(x30)))
  {
    SavedLinkIsLeft(w, FirstState(q, x30));
  }

  lemma ExampleReturns(w: World, q: word, p: word, start: SlowState)
    requires IsExample(w, q, p) && start.cfa == BASE && start.fp == Value(BASE)
    ensures var rs := w.o(q).rules;
      && CfaBase(w.mem, rs.cfa, start).Some? && NewCfa(w.mem, rs, start) == FirstCfa(FrameOf(w.o, q)) != BASE
      && ReturnAddress(w.mem, Relocated(w.mem, rs, start)) == Some(p + 1)
  {
    SaverFields(w.o, q, BASE);
  }

  /** The rules' own step at the first frame answers what the oracle says. */
  lemma ExampleAnswers(w: World, q: word, p: word, x30: Option<word>)
    requires IsExample(w, q, p)
    ensures Answers(w, FirstState(q, x30))
  {
    ExampleReturns(w, q, p, SlowStart(q, BASE, BASE, false, x30));
  }

  lemma ExampleSecond(w: World, q: word, p: word)
    requires IsExample(w, q, p)
    ensures SaverThenKeeper(w, FirstState(q, Some(0)))
    ensures PcOf(Second(w, FirstState(q, Some(0)))) == p
    ensures var f := FrameOf(w.o, q);
      Second(w, FirstState(q, Some(0))) ==
        WalkState(p + 1, FirstCfa(f), FirstFp(f, p + 1), FirstCfa(f), 0, true, Known(Some(0)))
  {
    ExampleSteps(w, q, p, Some(0));
    ExampleAnswers(w, q, p, Some(0));
  }

  lemma ExampleReads(w: World, q: word, p: word, st: WalkState)
    requires IsExample(w, q, p)
    requires var f := FrameOf(w.o, q); st.sp == FirstCfa(f) && st.fp == FirstFp(f, p + 1)
    ensures !SameWay(w.mem, FrameOf(w.o, p), st, Some(p + 1), Some(0))
  {
    assert U64(SecondCfa(FrameOf(w.o, q), FrameOf(w.o, p), p + 1) + FrameOf(w.o, p).fpCfaOffset) in w.mem;
  }

  lemma ExampleParts(w: World, q: word, p: word)
    requires IsExample(w, q, p)
    ensures SaverThenKeeper(w, FirstState(q, Some(0)))
    ensures var st := FirstState(q, Some(0));
      !SameWay(w.mem, FrameOf(w.o, PcOf(Second(w, st))), Second(w, st), Some(Second(w, st).pc), Some(0))
  {
    ExampleSecond(w, q, p);
    ExampleReads(w, q, p, Second(w, FirstState(q, Some(0))));
  }

  /** For any frame that saves LR and any that keeps it there are a stack and two caches with honest runs and two traces. */
  lemma KeeperDepends(w: World, q: word, p: word) returns (turn: TurnFn)
    requires IsExample(w, q, p)
    ensures var st := FirstState(q, Some(0));
      && SaverThenKeeper(w, st) && IsTurn(turn, w)
      && Inv(KeeperOnly(w, st), w.o) && Inv(BothFrames(w, st), w.o)
      && Honest(turn, w, KeeperOnly(w, st), st, 2) && Honest(turn, w, BothFrames(w, st), st, 2)
      && !SameTrace(w, KeeperOnly(w, st), BothFrames(w, st), st, 2)
  {
    var st := FirstState(q, Some(0));
    turn := SomeTurn(w);
    ExampleParts(w, q, p);
    KeeperTables(w, st);
    KeeperRunsHonest(turn, w, st, 2);
    KeeperSameIff(w, st, 2);
  }

  // ----- a first frame that moves the link and reads it -----

  /** Answers a step can give: a return address without a place ends the stack, and only a record gives a base SP with no offset. */
  predicate Possible(r: StepResult) {
    match r
    case ByRules(rs, ended) => (rs.lr.Undef? || rs.lr.IsCfa?) ==> ended
    case ByScan(_, baseIsSp, offset, _) => baseIsSp || offset <= 0
    case _ => true
  }

  /** A frame that moves the link and reads it was found by the prologue scan: no rules do that. */
  lemma MoverIsScan(o: Oracle, p: word)
    requires Possible(o(p)) && ReadsLink(FrameOf(o, p)) && !KeepsX30(o(p))
    ensures o(p).ByScan? && !o(p).ended && FrameOf(o, p).fpCfaOffset == -1
  {
    match o(p)
    case ByRules(rs, _) =>
      UnusualFrameKeepsDescriptor(p, rs);
      if IsStandard(rs) {
        RegisterLossless(rs.lr);
      }
    case _ =>
  }

  /** For every stack: a miss and a hit at such a frame give the same trace if and only if the two links lead the same way. */
  lemma MoverSameIff(w: World, st: WalkState, n: nat)
    requires CanStart(st) && ReadsLink(FrameOf(w.o, PcOf(st))) && !KeepsX30(w.o(PcOf(st))) && n == 1
    ensures SameTrace(w, Empty(), Adding(w.o, Empty(), PcOf(st)), st, n) <==>
      SameWay(w.mem, FrameOf(w.o, PcOf(st)), st, LinkLeft(w, PcOf(st), st), st.x30.value)
  {
    MoverMisses(w, st, n);
    MoverHits(w, st, n);
    SameWayIff(w.mem, FrameOf(w.o, PcOf(st)), st, LinkLeft(w, PcOf(st), st), st.x30.value);
  }

  lemma MoverMisses(w: World, st: WalkState, n: nat)
    requires CanStart(st) && !KeepsX30(w.o(PcOf(st))) && n == 1
    ensures TableWalk(w, Empty(), Plenty(), st, n).0 ==
      Recorded(FrameStep(w.mem, FrameOf(w.o, PcOf(st)), st.(x30 := Known(LinkLeft(w, PcOf(st), st)))))
  {
    var turn := SomeTurn(w);
    OneKey(w.o, PcOf(st));
    TurnOnMiss(turn, w, Empty(), st);
    OneTurn(turn, Empty(), st, n);
    WalkByTurn(turn, w, Empty(), Plenty(), st, n);
  }

  lemma MoverHits(w: World, st: WalkState, n: nat)
    requires CanStart(st) && n == 1
    ensures TableWalk(w, Adding(w.o, Empty(), PcOf(st)), Plenty(), st, n).0 ==
      Recorded(FrameStep(w.mem, FrameOf(w.o, PcOf(st)), st))
  {
    var turn := SomeTurn(w);
    OneKey(w.o, PcOf(st));
    TurnOnHit(turn, w, Adding(w.o, Empty(), PcOf(st)), st);
    OneTurn(turn, Adding(w.o, Empty(), PcOf(st)), st, n);
    WalkByTurn(turn, w, Adding(w.o, Empty(), PcOf(st)), Plenty(), st, n);
  }

  /** Memory with a frame record at an address. */
  function RecordStack(addr: word): Memory {
    map[U64(addr + 8) := LOWEST_PC][addr := BASE]
  }

  /** Where the scan finds no record, the fallback follows the link and forgets where it was. */
  function LinkWorld(o: Oracle): World {
    World(o, (pc, st) => None, map[])
  }

  /** Where the scan finds a record off SP, the fallback leaves loc[X30] in it. */
  function RecordWorld(o: Oracle, offset: int): World {
    World(o, (pc, st) => Some(LOWEST_PC), RecordStack(U64(BASE + offset)))
  }

  lemma LinkMover(o: Oracle, p: word)
    requires p != 0 && o(p).ByScan? && !o(p).ended && (o(p).baseIsSp <==> o(p).offset > 0)
    ensures var st := FirstState(p, Some(LOWEST_PC));
      Answers(LinkWorld(o), st) && LinkLeft(LinkWorld(o), p, st) == None
  {
    assert ScanAnswers(LinkWorld(o), FirstState(p, Some(LOWEST_PC)), Prologue.FrameState(Prologue.NoRecord, o(p).offset));
  }

  lemma RecordMover(o: Oracle, p: word)
    requires p != 0 && o(p).ByScan? && !o(p).ended && o(p).baseIsSp
    ensures var st := FirstState(p, Some(0));
      && Answers(RecordWorld(o, o(p).offset), st)
      && LinkLeft(RecordWorld(o, o(p).offset), p, st) == Some(LOWEST_PC)
  {
    var w, st := RecordWorld(o, o(p).offset), FirstState(p, Some(0));
    var fs := Prologue.FrameState(Prologue.AtSpOffset, o(p).offset);
    var addr: int := U64(BASE + o(p).offset);
    assert Load(w.mem, addr) == Some(BASE) && Load(w.mem, U64(addr + 8)) == Some(LOWEST_PC);
    assert ScanAnswers(w, st, fs);
  }

  /** Runs that answer honestly on the cache without the first frame and the cache with it, and give two traces. */
  ghost predicate HonestRunsDiffer(turn: TurnFn, w: World, st: WalkState) {
    var t := Adding(w.o, Empty(), PcOf(st));
    && CanStart(st) && IsTurn(turn, w) && Inv(Empty(), w.o) && Inv(t, w.o)
    && Honest(turn, w, Empty(), st, 1) && Honest(turn, w, t, st, 1)
    && !SameTrace(w, Empty(), t, st, 1)
  }

  lemma MoverDiffers(w: World, st: WalkState) returns (turn: TurnFn)
    requires CanStart(st) && Answers(w, st) && ReadsLink(FrameOf(w.o, PcOf(st))) && !KeepsX30(w.o(PcOf(st)))
    requires !SameWay(w.mem, FrameOf(w.o, PcOf(st)), st, LinkLeft(w, PcOf(st), st), st.x30.value)
    ensures HonestRunsDiffer(turn, w, st)
  {
    OneKey(w.o, PcOf(st));
    turn := SomeTurn(w);
    HonestStep(turn, w, Empty(), st, 1);
    HonestStep(turn, w, Adding(w.o, Empty(), PcOf(st)), st, 1);
    MoverSameIff(w, st, 1);
  }

  lemma StateParts(pc: word, x30: Option<word>)
    requires pc != 0
    ensures PcOf(FirstState(pc, x30)) == pc && CanStart(FirstState(pc, x30))
    ensures FirstState(pc, x30).x30.value == x30
  {
  }

  lemma WaysDiffer(mem: Memory, g: Frame, st: WalkState, a: Option<word>, b: Option<word>)
    requires g.fpCfaOffset == -1 && a != b
    requires a.None? || a.value == LOWEST_PC
    ensures !SameWay(mem, g, st, a, b)
  {
  }

  /** A frame found by the scan gives two traces, by honest runs on two well-formed caches. */
  lemma MoverDepends(o: Oracle, p: word) returns (w: World, st: WalkState, turn: TurnFn)
    requires p != 0 && Possible(o(p)) && ReadsLink(FrameOf(o, p)) && !KeepsX30(o(p))
    ensures w.o == o && PcOf(st) == p && HonestRunsDiffer(turn, w, st)
  {
    MoverIsScan(o, p);
    if o(p).baseIsSp {
      w, st := RecordWorld(o, o(p).offset), FirstState(p, Some(0));
      StateParts(p, Some(0));
      RecordMover(o, p);
      WaysDiffer(w.mem, FrameOf(o, p), st, Some(LOWEST_PC), Some(0));
    } else {
      w, st := LinkWorld(o), FirstState(p, Some(LOWEST_PC));
      StateParts(p, Some(LOWEST_PC));
      LinkMover(o, p);
      WaysDiffer(w.mem, FrameOf(o, p), st, None, Some(LOWEST_PC));
    }
    turn := MoverDiffers(w, st);
  }

  lemma HonestStep(turn: TurnFn, w: World, t: Table, st: WalkState, n: nat)
    requires n == 1 && st.x30.Known? && Answers(w, st)
    ensures Honest(turn, w, t, st, n)
  {
    if turn(t, st, true).0.Continue? {
      assert Honest(turn, w, turn(t, st, true).1, turn(t, st, true).0.st, n - 1);
    }
  }

  // ----- all walks of a program at once -----

  /** The pcs that a frame after the first can have: inside the instruction before a return address. */
  predicate CanFollow(pc: word) {
    pc >= LOWEST_PC - 1
  }

  /**
   At no address, visited or not, is there a frame that follows the link, but for
   keepers of LR too low to be returned to. Ordinary programs, every procedure of
   which keeps LR at its first instruction, do not meet this.
   */
  ghost predicate Settled(o: Oracle) {
    forall pc: word :: pc != 0 && ReadsLink(FrameOf(o, pc)) ==> KeepsX30(o(pc)) && !CanFollow(pc)
  }

  /** Any two honest runs from one state on well-formed caches give one trace. */
  ghost predicate Independent(o: Oracle) {
    forall turn: TurnFn, w: World, t: Table, t': Table, st: WalkState, n: nat ::
      (&& w.o == o && IsTurn(turn, w) && Inv(t, o) && Inv(t', o) && CanStart(st)
       && Honest(turn, w, t, st, n) && Honest(turn, w, t', st, n)) ==> SameTrace(w, t, t', st, n)
  }

  lemma {:induction false} SettledInPlace(o: Oracle, mem: Memory, st: WalkState, moved: bool, n: nat)
    requires Settled(o) && PcOf(st) != 0 && (moved ==> CanFollow(PcOf(st)))
    ensures LinkInPlace(o, mem, st, moved, n)
    decreases n
  {
    if n > 0 {
      var pc := PcOf(st);
      assert ReadsLink(FrameOf(o, pc)) ==> KeepsX30(o(pc)) && !CanFollow(pc);
      if OneFrame(o, mem, st).Continue? {
        NextCanFollow(o, mem, st);
        SettledInPlace(o, mem, OneFrame(o, mem, st).st, moved || !KeepsX30(o(pc)), n - 1);
      }
    }
  }

  lemma NextCanFollow(o: Oracle, mem: Memory, st: WalkState)
    requires OneFrame(o, mem, st).Continue?
    ensures CanFollow(PcOf(OneFrame(o, mem, st).st)) && PcOf(OneFrame(o, mem, st).st) != 0
  {
    StepCanFollow(mem, FrameOf(o, PcOf(st)), st.(x30 := X30After(o(PcOf(st)), st.x30)));
  }

  lemma StepCanFollow(mem: Memory, f: Frame, st: WalkState)
    requires FrameStep(mem, f, st).Continue?
    ensures CanFollow(PcOf(FrameStep(mem, f, st).st)) && PcOf(FrameStep(mem, f, st).st) != 0
  {
  }

  lemma DifferingTraces(turn: TurnFn, w: World, t: Table, t': Table, st: WalkState, n: nat)
    requires IsTurn(turn, w) && Inv(t, w.o) && Inv(t', w.o) && CanStart(st)
    requires Honest(turn, w, t, st, n) && Honest(turn, w, t', st, n) && !SameTrace(w, t, t', st, n)
    ensures !Independent(w.o)
  {
  }

  lemma UnsettledDepends(o: Oracle, q: word, p: word)
    requires q != 0 && SavesLink(o, q) && !ReadsLink(FrameOf(o, TWO_64 - 1))
    requires p != 0 && Possible(o(p)) && ReadsLink(FrameOf(o, p)) && !(KeepsX30(o(p)) && !CanFollow(p))
    ensures !Independent(o)
  {
    if KeepsX30(o(p)) {
      var w := World(o, (pc, st) => None, Stack(FrameOf(o, q), FrameOf(o, p), p + 1));
      var st := FirstState(q, Some(0));
      var turn := KeeperDepends(w, q, p);
      DifferingTraces(turn, w, KeeperOnly(w, st), BothFrames(w, st), st, 2);
    } else {
      var w, st, turn := MoverDepends(o, p);
      DifferingTraces(turn, w, Empty(), Adding(o, Empty(), p), st, 1);
    }
  }

  /** Any two well-formed caches give one trace, whatever the steps answer. */
  lemma SettledIndependent(o: Oracle)
    requires Settled(o)
    ensures forall w: World, t: Table, t': Table, st: WalkState, n: nat ::
      w.o == o && Inv(t, o) && Inv(t', o) && CanStart(st) ==> SameTrace(w, t, t', st, n)
  {
    forall w: World, t: Table, t': Table, st: WalkState, n: nat |
      w.o == o && Inv(t, o) && Inv(t', o) && CanStart(st) ensures SameTrace(w, t, t', st, n)
    {
      SettledInPlace(o, w.mem, st, false, n);
      InPlaceSameTrace(w, t, t', st, n);
    }
  }

  /**
   For a whole program at once: where some frame saves LR, its traces are
   independent of the cache if and only if it is settled.
   */
  lemma IndependentIff(o: Oracle, q: word)
    requires forall pc :: Possible(o(pc))
    requires q != 0 && SavesLink(o, q) && !ReadsLink(FrameOf(o, TWO_64 - 1))
    ensures Independent(o) <==> Settled(o)
  {
    if Settled(o) {
      SettledIndependent(o);
    } else {
      var p: word :| p != 0 && ReadsLink(FrameOf(o, p)) && !(KeepsX30(o(p)) && !CanFollow(p));
      UnsettledDepends(o, q, p);
    }
  }
}
