/**
 The ARM EHABI two-phase exception protocol: a search for a handler, then a
 second walk that installs each cleanup landing pad and at last the handler.
 A landing pad runs on the stack the walk was standing on, so the walk continues
 from a snapshot of its cursor on the heap.
 */
module Exceptions {
  import opened Machine

  /** What a personality routine answers. */
  datatype Answer = ContinueUnwind | HandlerFound | InstallContext | OtherReason

  /** One frame of the unwound stack, innermost first. */
  datatype Frame = Frame(
    hasProcInfo: bool,
    hasPersonality: bool,
    cfa: word32,
    search: Answer,       // asked with _US_VIRTUAL_UNWIND_FRAME
    cleanup: Answer)      // asked with _US_UNWIND_FRAME_STARTING

  predicate IsAsked(f: Frame) {
    f.hasProcInfo && f.hasPersonality
  }

  /** A frame with a landing pad to run on the way to the handler (or the handler's own). */
  predicate HasPad(f: Frame) {
    IsAsked(f) && f.cleanup == InstallContext
  }

  // ----- the two phases as functions -----

  datatype Search = Found(frame: nat) | NotFound | SearchFailed

  /** Phase 1 from frame i; endsCleanly: stepping off the last frame returns 0, not an error. */
  function SearchFrom(frames: seq<Frame>, i: nat, endsCleanly: bool): (r: Search)
    requires i <= |frames|
    ensures r.Found? ==> i <= r.frame < |frames|
    decreases |frames| - i
  {
    if i == |frames| then (if endsCleanly then NotFound else SearchFailed)
    else if !IsAsked(frames[i]) || frames[i].search == ContinueUnwind then SearchFrom(frames, i + 1, endsCleanly)
    else if frames[i].search == HandlerFound then Found(i)
    else SearchFailed
  }

  datatype Pad = Install(frame: nat) | Abort

  /** Phase 2 from frame i up to the next landing pad. */
  function NextPad(frames: seq<Frame>, i: nat): (r: Pad)
    requires i <= |frames|
    ensures r.Install? ==> i <= r.frame < |frames| && frames[r.frame].cleanup == InstallContext
    decreases |frames| - i
  {
    if i == |frames| then Abort
    else if !IsAsked(frames[i]) || frames[i].cleanup == ContinueUnwind then NextPad(frames, i + 1)
    else if frames[i].cleanup == InstallContext then Install(i)
    else Abort
  }

  function Put(put: bool, x: nat, s: seq<nat>): seq<nat> {
    if put then [x] + s else s
  }

  /** The frames from i up to and including j whose personality exists, in order. */
  function AskedBetween(frames: seq<Frame>, i: nat, j: nat): seq<nat>
    requires j <= |frames|
    decreases j - i
  {
    if i >= j then []
    else Put(IsAsked(frames[i]), i, AskedBetween(frames, i + 1, j))
  }

  /** The frames phase 2 asks before it stops at the next pad or aborts. */
  function AskedUntilPad(frames: seq<Frame>, i: nat): seq<nat>
    requires i <= |frames|
    decreases |frames| - i
  {
    if i == |frames| then []
    else if !IsAsked(frames[i]) then AskedUntilPad(frames, i + 1)
    else if frames[i].cleanup == ContinueUnwind then [i] + AskedUntilPad(frames, i + 1)
    else [i]
  }

  /** The pad at frame j is a cleanup that has a caller to go on to. */
  predicate Resumable(frames: seq<Frame>, j: nat, barrier: word32)
    requires j < |frames|
  {
    frames[j].cfa != barrier && j + 1 < |frames|
  }

  /** All landing pads of phase 2 from frame i, each cleanup resuming at its caller. */
  function PadsFrom(frames: seq<Frame>, i: nat, barrier: word32): seq<nat>
    requires i <= |frames|
    decreases |frames| - i, 1
  {
    match NextPad(frames, i)
    case Abort => []
    case Install(j) => [j] + PadsAfter(frames, j, barrier)
  }

  function PadsAfter(frames: seq<Frame>, j: nat, barrier: word32): seq<nat>
    requires j < |frames|
    decreases |frames| - j, 0
  {
    if Resumable(frames, j, barrier) then PadsFrom(frames, j + 1, barrier) else []
  }

  /** All frames phase 2 asks from frame i. */
  function AskedFrom(frames: seq<Frame>, i: nat, barrier: word32): seq<nat>
    requires i <= |frames|
    decreases |frames| - i, 1
  {
    match NextPad(frames, i)
    case Abort => AskedUntilPad(frames, i)
    case Install(j) => AskedUntilPad(frames, i) + AskedAfter(frames, j, barrier)
  }

  function AskedAfter(frames: seq<Frame>, j: nat, barrier: word32): seq<nat>
    requires j < |frames|
    decreases |frames| - j, 0
  {
    if Resumable(frames, j, barrier) then AskedFrom(frames, j + 1, barrier) else []
  }

  /** With pads installed and asked called, the last pad at frame j, the two runs go on as planned. */
  ghost predicate OnCourse(frames: seq<Frame>, barrier: word32, all: seq<nat>, allAsked: seq<nat>,
                           pads: seq<nat>, asked: seq<nat>, j: nat)
    requires j < |frames|
  {
    all == pads + PadsAfter(frames, j, barrier) && allAsked == asked + AskedAfter(frames, j, barrier)
  }

  lemma CourseStep(frames: seq<Frame>, barrier: word32, all: seq<nat>, allAsked: seq<nat>,
                   pads: seq<nat>, asked: seq<nat>, j: nat)
    requires j < |frames| && OnCourse(frames, barrier, all, allAsked, pads, asked, j)
    requires Resumable(frames, j, barrier)
    ensures var asked' := asked + AskedUntilPad(frames, j + 1);
      match NextPad(frames, j + 1)
      case Abort => all == pads && allAsked == asked'
      case Install(j') => OnCourse(frames, barrier, all, allAsked, pads + [j'], asked', j')
  {
    match NextPad(frames, j + 1)
    case Abort =>
      assert PadsAfter(frames, j, barrier) == PadsFrom(frames, j + 1, barrier) == [];
      assert AskedAfter(frames, j, barrier) == AskedFrom(frames, j + 1, barrier) == AskedUntilPad(frames, j + 1);
    case Install(j') =>
      assert PadsAfter(frames, j, barrier) == PadsFrom(frames, j + 1, barrier);
      assert AskedAfter(frames, j, barrier) == AskedFrom(frames, j + 1, barrier);
      CourseUnfolds(frames, barrier, j + 1);
      Regroup(pads, [j'], PadsAfter(frames, j', barrier));
      Regroup(asked, AskedUntilPad(frames, j + 1), AskedAfter(frames, j', barrier));
  }

  lemma CourseUnfolds(frames: seq<Frame>, barrier: word32, i: nat)
    requires i <= |frames| && NextPad(frames, i).Install?
    ensures var j := NextPad(frames, i).frame;
      && PadsFrom(frames, i, barrier) == [j] + PadsAfter(frames, j, barrier)
      && AskedFrom(frames, i, barrier) == AskedUntilPad(frames, i) + AskedAfter(frames, j, barrier)
  {
  }

  lemma CourseBegins(frames: seq<Frame>, barrier: word32)
    requires NextPad(frames, 0).Install?
    ensures OnCourse(frames, barrier, PadsFrom(frames, 0, barrier), AskedFrom(frames, 0, barrier),
                     [NextPad(frames, 0).frame], AskedUntilPad(frames, 0), NextPad(frames, 0).frame)
  {
    CourseUnfolds(frames, barrier, 0);
  }

  // ----- what the protocol promises -----

  /** Frame h is the first from i on that has a personality and whose answer, chosen by ask, is not to go on. */
  ghost predicate Decides(frames: seq<Frame>, i: nat, h: nat, ask: Frame -> Answer) {
    && i <= h < |frames| && frames[h].hasProcInfo && frames[h].hasPersonality && ask(frames[h]) != ContinueUnwind
    && AllContinue(frames, i, h, ask)
  }

  /** Every frame of [i, j) with a personality answers that the unwinding goes on. */
  ghost predicate AllContinue(frames: seq<Frame>, i: nat, j: nat, ask: Frame -> Answer) {
    j <= |frames| &&
    forall k :: i <= k < j && frames[k].hasProcInfo && frames[k].hasPersonality ==> ask(frames[k]) == ContinueUnwind
  }

  function SearchAnswer(): Frame -> Answer {
    (f: Frame) => f.search
  }

  function CleanupAnswer(): Frame -> Answer {
    (f: Frame) => f.cleanup
  }

  lemma DecidesNext(frames: seq<Frame>, i: nat, ask: Frame -> Answer)
    requires i < |frames|
    ensures IsAsked(frames[i]) && ask(frames[i]) != ContinueUnwind <==> Decides(frames, i, i, ask)
    ensures !Decides(frames, i, i, ask) ==>
      && (AllContinue(frames, i, |frames|, ask) <==> AllContinue(frames, i + 1, |frames|, ask))
      && forall h :: Decides(frames, i, h, ask) <==> Decides(frames, i + 1, h, ask)
  {
  }

  lemma OneDecides(frames: seq<Frame>, i: nat, h: nat, g: nat, ask: Frame -> Answer)
    requires Decides(frames, i, h, ask)
    ensures Decides(frames, i, g, ask) <==> g == h
    ensures !AllContinue(frames, i, |frames|, ask)
  {
  }

  /**
   Phase 1 finds a handler at the frame that decides, if it answers that it has
   one; it finds none if no frame decides and the stack ends cleanly; and it
   fails in the remaining cases, a deciding frame that answers anything else or
   a stack that does not end cleanly.
   */
  lemma {:induction false} SearchIff(frames: seq<Frame>, i: nat, endsCleanly: bool, h: nat)
    requires i <= |frames|
    ensures var r, ask := SearchFrom(frames, i, endsCleanly), SearchAnswer();
      && (r == Found(h) <==> Decides(frames, i, h, ask) && frames[h].search == HandlerFound)
      && (r == NotFound <==> AllContinue(frames, i, |frames|, ask) && endsCleanly)
      && (Decides(frames, i, h, ask) && frames[h].search != HandlerFound ==> r == SearchFailed)
      && (AllContinue(frames, i, |frames|, ask) && !endsCleanly ==> r == SearchFailed)
    decreases |frames| - i
  {
    if i < |frames| {
      DecidesNext(frames, i, SearchAnswer());
      if Decides(frames, i, i, SearchAnswer()) {
        OneDecides(frames, i, i, h, SearchAnswer());
      } else {
        SearchIff(frames, i + 1, endsCleanly, h);
      }
    }
  }

  /** Some frame decides, or all go on. */
  lemma {:induction false} DecidedOrNot(frames: seq<Frame>, i: nat, ask: Frame -> Answer) returns (h: nat)
    requires i <= |frames|
    ensures Decides(frames, i, h, ask) || AllContinue(frames, i, |frames|, ask)
    decreases |frames| - i
  {
    h := i;
    if i < |frames| {
      DecidesNext(frames, i, ask);
      if !Decides(frames, i, i, ask) {
        h := DecidedOrNot(frames, i + 1, ask);
      }
    }
  }

  /** Phase 2 runs the pad of the frame that decides, if it answers that its context is installed, and aborts otherwise. */
  lemma {:induction false} NextPadIff(frames: seq<Frame>, i: nat, h: nat)
    requires i <= |frames|
    ensures var r, ask := NextPad(frames, i), CleanupAnswer();
      && (r == Install(h) <==> Decides(frames, i, h, ask) && frames[h].cleanup == InstallContext)
      && (Decides(frames, i, h, ask) && frames[h].cleanup != InstallContext ==> r == Abort)
      && (AllContinue(frames, i, |frames|, ask) ==> r == Abort)
    decreases |frames| - i
  {
    if i < |frames| {
      DecidesNext(frames, i, CleanupAnswer());
      if Decides(frames, i, i, CleanupAnswer()) {
        OneDecides(frames, i, i, h, CleanupAnswer());
      } else {
        NextPadIff(frames, i + 1, h);
      }
    }
  }

  /** On the way there it asks every frame with a personality up to the deciding one. */
  lemma {:induction false} AskedUntilDecided(frames: seq<Frame>, i: nat, h: nat)
    requires i <= |frames|
    ensures Decides(frames, i, h, CleanupAnswer()) ==> AskedUntilPad(frames, i) == AskedBetween(frames, i, h + 1)
    ensures AllContinue(frames, i, |frames|, CleanupAnswer()) ==> AskedUntilPad(frames, i) == AskedBetween(frames, i, |frames|)
    decreases |frames| - i
  {
    if i < |frames| {
      DecidesNext(frames, i, CleanupAnswer());
      if Decides(frames, i, i, CleanupAnswer()) {
        OneDecides(frames, i, i, h, CleanupAnswer());
        assert AskedBetween(frames, i + 1, i + 1) == [];
      } else {
        AskedUntilDecided(frames, i + 1, h);
      }
    }
  }

  ghost predicate CfaBelow(frames: seq<Frame>, i: nat, j: nat)
    requires i < |frames| && j < |frames|
  {
    frames[i].cfa < frames[j].cfa
  }

  ghost predicate IncreasingCfas(frames: seq<Frame>) {
    forall i, j :: 0 <= i < j < |frames| ==> CfaBelow(frames, i, j)
  }

  /** The cleanup frames in [i, h), in order. */
  function CleanupsBetween(frames: seq<Frame>, i: nat, h: nat): seq<nat>
    requires h <= |frames|
    decreases h - i
  {
    if i >= h then []
    else Put(HasPad(frames[i]), i, CleanupsBetween(frames, i + 1, h))
  }

  /** The personalities keep the protocol: cleanup or continue below the handler, install at it. */
  ghost predicate Cooperative(frames: seq<Frame>, i: nat, h: nat)
    requires h < |frames|
  {
    && (forall k :: i <= k < h && IsAsked(frames[k]) ==>
          frames[k].cleanup == ContinueUnwind || frames[k].cleanup == InstallContext)
    && HasPad(frames[h])
  }

  /** Phase 2 installs the cleanups below the handler innermost first, then the handler, and nothing beyond. */
  lemma {:induction false} PadsInOrder(frames: seq<Frame>, i: nat, h: nat)
    requires i <= h < |frames| && IncreasingCfas(frames) && Cooperative(frames, i, h)
    ensures PadsFrom(frames, i, frames[h].cfa) == CleanupsBetween(frames, i, h) + [h]
    decreases h - i
  {
    var barrier := frames[h].cfa;
    if i == h {
      assert NextPad(frames, i) == Install(h);
    } else {
      PadsInOrder(frames, i + 1, h);
      var rest := CleanupsBetween(frames, i + 1, h);
      if HasPad(frames[i]) {
        assert CfaBelow(frames, i, h) && NextPad(frames, i) == Install(i);
        assert PadsFrom(frames, i, barrier) == [i] + PadsFrom(frames, i + 1, barrier);
        assert [i] + (rest + [h]) == ([i] + rest) + [h];
      } else {
        assert NextPad(frames, i) == NextPad(frames, i + 1);
        assert PadsFrom(frames, i, barrier) == PadsFrom(frames, i + 1, barrier);
        assert [] + rest == rest;
      }
    }
  }

  /** A frame that is not asked, or goes on, changes nothing in what follows it. */
  lemma PadIsBeyond(frames: seq<Frame>, i: nat)
    requires i < |frames| && (!IsAsked(frames[i]) || frames[i].cleanup == ContinueUnwind)
    ensures NextPad(frames, i) == NextPad(frames, i + 1)
    ensures AskedUntilPad(frames, i) == Put(IsAsked(frames[i]), i, AskedUntilPad(frames, i + 1))
  {
  }

  lemma PutBefore(put: bool, x: nat, s: seq<nat>, t: seq<nat>)
    ensures Put(put, x, s) + t == Put(put, x, s + t)
  {
    Regroup([x], s, t);
  }

  lemma AskedFromSkips(frames: seq<Frame>, i: nat, barrier: word32)
    requires i < |frames| && (!IsAsked(frames[i]) || frames[i].cleanup == ContinueUnwind)
    ensures AskedFrom(frames, i, barrier) == Put(IsAsked(frames[i]), i, AskedFrom(frames, i + 1, barrier))
  {
    PadIsBeyond(frames, i);
    match NextPad(frames, i)
    case Abort =>
    case Install(j) =>
      PutBefore(IsAsked(frames[i]), i, AskedUntilPad(frames, i + 1), AskedAfter(frames, j, barrier));
  }

  lemma AskedFromStops(frames: seq<Frame>, i: nat, barrier: word32)
    requires i < |frames| && HasPad(frames[i])
    ensures AskedFrom(frames, i, barrier) == [i] + AskedAfter(frames, i, barrier)
  {
    assert NextPad(frames, i) == Install(i) && AskedUntilPad(frames, i) == [i];
  }

  lemma AskedFromStep(frames: seq<Frame>, i: nat, barrier: word32)
    requires i + 1 < |frames| && frames[i].cfa != barrier
    requires IsAsked(frames[i]) ==> frames[i].cleanup == ContinueUnwind || frames[i].cleanup == InstallContext
    ensures AskedFrom(frames, i, barrier) == Put(IsAsked(frames[i]), i, AskedFrom(frames, i + 1, barrier))
  {
    if HasPad(frames[i]) {
      AskedFromStops(frames, i, barrier);
    } else {
      AskedFromSkips(frames, i, barrier);
    }
  }

  /** Phase 2 asks each frame with a personality up to the handler once, in order, and none beyond. */
  lemma {:induction false} AskedInOrder(frames: seq<Frame>, i: nat, h: nat)
    requires i <= h < |frames| && IncreasingCfas(frames) && Cooperative(frames, i, h)
    ensures AskedFrom(frames, i, frames[h].cfa) == AskedBetween(frames, i, h + 1)
    decreases h - i
  {
    if i == h {
      AskedFromStops(frames, h, frames[h].cfa);
      assert AskedBetween(frames, h + 1, h + 1) == [];
      assert AskedAfter(frames, h, frames[h].cfa) == [];
    } else {
      AskedInOrder(frames, i + 1, h);
      assert CfaBelow(frames, i, h);
      AskedFromStep(frames, i, frames[h].cfa);
    }
  }

  ghost predicate InOrder(s: seq<nat>, j: nat, k: nat)
    requires j < |s| && k < |s|
  {
    s[j] < s[k]
  }

  ghost predicate Ascending(s: seq<nat>, lo: nat) {
    && (forall k :: 0 <= k < |s| ==> lo <= s[k])
    && (forall j, k :: 0 <= j < k < |s| ==> InOrder(s, j, k))
  }

  lemma MemberOfPut(put: bool, x: nat, s: seq<nat>, k: nat)
    ensures k in Put(put, x, s) <==> (put && k == x) || k in s
  {
  }

  lemma AscendingPut(put: bool, x: nat, s: seq<nat>)
    requires Ascending(s, x + 1)
    ensures Ascending(Put(put, x, s), x)
  {
    if put {
      AscendingCons(x, s);
    }
  }

  lemma AscendingCons(x: nat, s: seq<nat>)
    requires Ascending(s, x + 1)
    ensures Ascending([x] + s, x)
  {
    var t := [x] + s;
    forall j, k | 0 <= j < k < |t| ensures InOrder(t, j, k) {
      if j > 0 {
        assert InOrder(s, j - 1, k - 1);
      }
    }
  }

  lemma {:induction false} AskedBetweenHas(frames: seq<Frame>, i: nat, j: nat, k: nat)
    requires j <= |frames|
    ensures k in AskedBetween(frames, i, j) <==> i <= k < j && IsAsked(frames[k])
    decreases j - i
  {
    if i < j {
      AskedBetweenHas(frames, i + 1, j, k);
      MemberOfPut(IsAsked(frames[i]), i, AskedBetween(frames, i + 1, j), k);
    }
  }

  lemma {:induction false} AskedBetweenAscend(frames: seq<Frame>, i: nat, j: nat)
    requires j <= |frames|
    ensures Ascending(AskedBetween(frames, i, j), i)
    decreases j - i
  {
    if i < j {
      AskedBetweenAscend(frames, i + 1, j);
      AscendingPut(IsAsked(frames[i]), i, AskedBetween(frames, i + 1, j));
    }
  }

  lemma AskedBetweenMembers(frames: seq<Frame>, i: nat, j: nat)
    requires i <= j <= |frames|
    ensures forall k :: k in AskedBetween(frames, i, j) <==> i <= k < j && IsAsked(frames[k])
    ensures Ascending(AskedBetween(frames, i, j), i)
  {
    forall k: nat ensures k in AskedBetween(frames, i, j) <==> i <= k < j && IsAsked(frames[k]) {
      AskedBetweenHas(frames, i, j, k);
    }
    AskedBetweenAscend(frames, i, j);
  }

  lemma {:induction false} CleanupsBetweenHas(frames: seq<Frame>, i: nat, h: nat, k: nat)
    requires h <= |frames|
    ensures k in CleanupsBetween(frames, i, h) <==> i <= k < h && HasPad(frames[k])
    decreases h - i
  {
    if i < h {
      CleanupsBetweenHas(frames, i + 1, h, k);
      MemberOfPut(HasPad(frames[i]), i, CleanupsBetween(frames, i + 1, h), k);
    }
  }

  lemma {:induction false} CleanupsBetweenAscend(frames: seq<Frame>, i: nat, h: nat)
    requires h <= |frames|
    ensures Ascending(CleanupsBetween(frames, i, h), i)
    decreases h - i
  {
    if i < h {
      CleanupsBetweenAscend(frames, i + 1, h);
      AscendingPut(HasPad(frames[i]), i, CleanupsBetween(frames, i + 1, h));
    }
  }

  lemma CleanupsBetweenMembers(frames: seq<Frame>, i: nat, h: nat)
    requires i <= h <= |frames|
    ensures forall k :: k in CleanupsBetween(frames, i, h) <==> i <= k < h && HasPad(frames[k])
    ensures Ascending(CleanupsBetween(frames, i, h), i)
  {
    forall k: nat ensures k in CleanupsBetween(frames, i, h) <==> i <= k < h && HasPad(frames[k]) {
      CleanupsBetweenHas(frames, i, h, k);
    }
    CleanupsBetweenAscend(frames, i, h);
  }

  /** The handler is reached exactly when every personality on the way cooperates. */
  lemma {:induction false} HandlerReachedIff(frames: seq<Frame>, i: nat, h: nat)
    requires i <= h < |frames| && IncreasingCfas(frames)
    ensures h in PadsFrom(frames, i, frames[h].cfa) <==> Cooperative(frames, i, h)
    decreases h - i
  {
    var r := NextPad(frames, i);
    if i == h {
      if !Cooperative(frames, h, h) {
        PadsAreAbove(frames, h, frames[h].cfa);
        PadsSkip(frames, h);
      }
    } else if !IsAsked(frames[i]) || frames[i].cleanup == ContinueUnwind {
      HandlerReachedIff(frames, i + 1, h);
      assert r == NextPad(frames, i + 1);
    } else if frames[i].cleanup == InstallContext {
      HandlerReachedIff(frames, i + 1, h);
      assert CfaBelow(frames, i, h);
      assert r == Install(i);
    } else {
      assert r == Abort;
    }
  }

  lemma {:induction false} PadsAreAbove(frames: seq<Frame>, i: nat, barrier: word32)
    requires i <= |frames|
    ensures forall k :: k in PadsFrom(frames, i, barrier) ==>
      i <= k < |frames| && HasPad(frames[k])
    decreases |frames| - i
  {
    PadsSkip(frames, i);
    match NextPad(frames, i)
    case Abort =>
    case Install(j) =>
      if !(frames[j].cfa == barrier || j + 1 == |frames|) {
        PadsAreAbove(frames, j + 1, barrier);
      }
  }

  lemma {:induction false} PadsSkip(frames: seq<Frame>, i: nat)
    requires i <= |frames|
    ensures NextPad(frames, i).Install? ==> IsAsked(frames[NextPad(frames, i).frame])
    decreases |frames| - i
  {
    if i < |frames| {
      PadsSkip(frames, i + 1);
    }
  }

  // ----- the protocol as the source runs it -----

  /** Memory a cursor may point into: the stack frame of one call of the unwinder, or a snapshot. */
  datatype Place = Stack(activation: nat) | Snapshot(id: nat)

  /** frame -1 is the unwinder itself; uc and asArg are the cursor's two pointers. */
  datatype Cursor = Cursor(frame: int, uc: Place, asArg: Place)

  /** How a call into the unwinder ends: control is in a landing pad, back at the caller, or gone. */
  datatype Outcome = Installed(frame: nat) | EndOfStack | Failure | Aborted

  lemma SoleKey(heap: map<nat, Cursor>, id: nat, c: Cursor)
    requires id !in heap
    ensures heap[id := c].Keys == {id} <==> heap == map[]
  {
    if heap != map[] {
      var other :| other in heap;
      assert other in heap[id := c].Keys;
    }
  }

  class Unwinder {
    const frames: seq<Frame>
    const endsCleanly: bool
    var barrierSp: word32              // barrier_cache.sp
    var reserved4: Option<nat>         // unwinder_cache.reserved4: the snapshot, if any
    var heap: map<nat, Cursor>         // the live snapshots
    var nextId: nat
    var activation: nat                // the running call's stack frame
    ghost var asked: seq<nat>          // phase 2 personality calls
    ghost var pads: seq<nat>           // landing pads installed
    ghost var freed: seq<nat>

    constructor (frames: seq<Frame>, endsCleanly: bool)
      ensures this.frames == frames && this.endsCleanly == endsCleanly
      ensures Owned() && reserved4 == None && asked == [] && pads == []
    {
      this.frames, this.endsCleanly := frames, endsCleanly;
      barrierSp, reserved4, heap, nextId, activation := 0, None, map[], 0, 0;
      asked, pads, freed := [], [], [];
    }

    /** At most one snapshot is live, reserved4 names it, and it points only at itself. */
    ghost predicate OneSnapshot()
      reads this`reserved4, this`heap
    {
      match reserved4
      case None => heap == map[]
      case Some(id) =>
        && heap.Keys == {id}
        && heap[id].uc == Snapshot(id) && heap[id].asArg == Snapshot(id)
        && 0 <= heap[id].frame < |frames|
    }

    /** Every snapshot ever allocated is either live or has been freed exactly once. */
    ghost predicate FreedOnce()
      reads this`freed, this`nextId, this`heap
    {
      forall id: nat :: multiset(freed)[id] == if id < nextId && id !in heap then 1 else 0
    }

    /** Identities are not reused and every dead snapshot has been freed once. */
    ghost predicate Accounted()
      reads this`heap, this`freed, this`nextId
    {
      FreedOnce() && forall id :: id in heap ==> id < nextId
    }

    ghost predicate Owned()
      reads this`reserved4, this`heap, this`freed, this`nextId
    {
      OneSnapshot() && Accounted()
    }

    /** Phase 2, entered at frame from, has ended with o; the histories started as given. */
    ghost predicate Reached(o: Outcome, from: nat, askedBefore: seq<nat>, padsBefore: seq<nat>, canAllocate: bool)
      requires from <= |frames|
      reads this
    {
      && asked == askedBefore + AskedUntilPad(frames, from)
      && match NextPad(frames, from)
         case Abort => o == Aborted && pads == padsBefore && reserved4 == None
         case Install(j) =>
           && o == Installed(j) && pads == padsBefore + [j]
           && if Resumable(frames, j, barrierSp) && canAllocate
              then reserved4.Some? && reserved4.value in heap && heap[reserved4.value].frame == j + 1
              else reserved4 == None
    }

    /** The memory behind a pointer is still there. */
    predicate Live(p: Place)
      reads this`activation, this`heap
    {
      match p
      case Stack(a) => a == activation
      case Snapshot(id) => id in heap
    }

    predicate Usable(c: Cursor)
      reads this`activation, this`heap
    {
      Live(c.uc) && Live(c.asArg) && -1 <= c.frame < |frames|
    }

    /** unw_step; both pointers of the cursor are followed. */
    method Step(c: Cursor) returns (ret: int, c': Cursor)
      requires Usable(c)
      ensures ret > 0 <==> c.frame + 1 < |frames|
      ensures ret > 0 ==> c' == c.(frame := c.frame + 1)
      ensures ret <= 0 ==> c' == c && (ret == 0 <==> endsCleanly)
    {
      if c.frame + 1 < |frames| {
        return 1, c.(frame := c.frame + 1);
      }
      return if endsCleanly then 0 else -1, c;
    }

    /** malloc, and the copy of the cursor into it */
    method Allocate(c: Cursor) returns (id: nat)
      requires Accounted()
      modifies this`heap, this`nextId
      ensures id == old(nextId) && id !in old(heap) && heap == old(heap)[id := c]
      ensures Accounted()
    {
      id := nextId;
      nextId := nextId + 1;
      heap := heap[id := c];
    }

    /** free */
    method Free(id: nat)
      requires id in heap && Accounted()
      modifies this`heap, this`freed
      ensures heap == old(heap) - {id} && Accounted()
    {
      heap := heap - {id};
      freed := freed + [id];
    }

    /** unw_step of a snapshot, in place */
    method StepSnapshot(id: nat) returns (ret: int)
      requires id in heap && Usable(heap[id]) && Accounted()
      modifies this`heap
      ensures ret > 0 <==> old(heap[id].frame) + 1 < |frames|
      ensures heap == old(heap)[id := if ret > 0 then old(heap[id]).(frame := old(heap[id].frame) + 1) else old(heap[id])]
      ensures Accounted()
    {
      var ctx;
      ret, ctx := Step(heap[id]);
      heap := heap[id := ctx];
    }

    /**
     arm_snapshot_phase2.  reserved4 is overwritten without a look at it, so a snapshot
     that is still live then stays live with nothing naming it.
     */
    method SaveSnapshot(c: Cursor, canAllocate: bool)
      requires Accounted() && Usable(c) && c.frame >= 0
      modifies this`heap, this`reserved4, this`nextId, this`freed
      ensures Accounted()
      ensures old(OneSnapshot()) && old(reserved4) == None ==> OneSnapshot()
      ensures if canAllocate && c.frame + 1 < |frames| then
          && reserved4 == Some(old(nextId)) && old(nextId) !in old(heap)
          && heap == old(heap)[old(nextId) :=
               Cursor(c.frame + 1, Snapshot(old(nextId)), Snapshot(old(nextId)))]
          && (OneSnapshot() <==> old(heap) == map[])
        else reserved4 == old(reserved4) && heap == old(heap)
    {
      if !canAllocate {
        return;
      }
      var snap := Allocate(c);
      var ret := StepSnapshot(snap);
      if ret <= 0 {
        Free(snap);
        assert heap == old(heap);
        return;
      }
      heap := heap[snap := heap[snap].(uc := Snapshot(snap), asArg := Snapshot(snap))];
      reserved4 := Some(snap);
      SoleKey(old(heap), snap, heap[snap]);
    }

    /** Enter the landing pad of the cursor's frame; below the handler a snapshot is left to go on from. */
    method InstallPad(c: Cursor, canAllocate: bool)
      requires Owned() && reserved4 == None && Usable(c) && c.frame >= 0
      modifies this`heap, this`reserved4, this`nextId, this`freed, this`pads
      ensures Owned() && pads == old(pads) + [c.frame]
      ensures if Resumable(frames, c.frame, barrierSp) && canAllocate
        then reserved4.Some? && reserved4.value in heap && heap[reserved4.value].frame == c.frame + 1
        else reserved4 == None
    {
      if frames[c.frame].cfa != barrierSp {
        SaveSnapshot(c, canAllocate);
      }
      pads := pads + [c.frame];
    }

    /** arm_phase2; it never returns, so its outcome is where control goes. */
    method Phase2(start: Cursor, startStepping: bool, canAllocate: bool) returns (o: Outcome)
      requires Owned() && reserved4 == None && Usable(start)
      requires !startStepping ==> start.frame >= 0
      modifies this`heap, this`reserved4, this`nextId, this`freed, this`asked, this`pads
      ensures Owned()
      ensures Reached(o, if startStepping then start.frame + 1 else start.frame, old(asked), old(pads), canAllocate)
    {
      var c, stepFirst := start, startStepping;
      ghost var from := if startStepping then start.frame + 1 else start.frame;
      while true
        invariant Usable(c) && (stepFirst || c.frame >= 0) && Owned() && reserved4 == None
        invariant pads == old(pads)
        invariant var next := if stepFirst then c.frame + 1 else c.frame;
          && NextPad(frames, from) == NextPad(frames, next)
          && asked + AskedUntilPad(frames, next) == old(asked) + AskedUntilPad(frames, from)
        decreases |frames| - c.frame, !stepFirst
      {
        if stepFirst {
          var ret;
          ret, c := Step(c);
          if ret <= 0 {
            return Aborted;
          }
        }
        stepFirst := true;
        var f := frames[c.frame];
        if !f.hasProcInfo {
          continue;
        }
        if !f.hasPersonality {
          continue;
        }
        Regroup(asked, [c.frame], AskedUntilPad(frames, c.frame + 1));
        Regroup(asked, [c.frame], []);
        asked := asked + [c.frame];
        var reason := f.cleanup;
        if reason == InstallContext {
          InstallPad(c, canAllocate);
          return Installed(c.frame);
        }
        if reason != ContinueUnwind {
          return Aborted;
        }
      }
    }

    /** The search of _Unwind_RaiseException. */
    method Phase1(start: Cursor) returns (r: Search)
      requires Usable(start)
      ensures r == SearchFrom(frames, start.frame + 1, endsCleanly)
    {
      var c := start;
      while true
        invariant Usable(c)
        invariant SearchFrom(frames, start.frame + 1, endsCleanly) == SearchFrom(frames, c.frame + 1, endsCleanly)
        decreases |frames| - c.frame
      {
        var ret;
        ret, c := Step(c);
        if ret <= 0 {
          return if ret == 0 then NotFound else SearchFailed;
        }
        var f := frames[c.frame];
        if !f.hasProcInfo {
          continue;
        }
        if !f.hasPersonality {
          continue;
        }
        if f.search == HandlerFound {
          return Found(c.frame);
        }
        if f.search != ContinueUnwind {
          return SearchFailed;
        }
      }
    }

    method RaiseException(canAllocate: bool) returns (o: Outcome)
      requires Owned() && reserved4 == None
      modifies this
      ensures Owned()
      ensures match SearchFrom(frames, 0, endsCleanly)
        case NotFound => o == EndOfStack && asked == old(asked) && pads == old(pads) && reserved4 == None
        case SearchFailed => o == Failure && asked == old(asked) && pads == old(pads) && reserved4 == None
        case Found(h) =>
          barrierSp == frames[h].cfa && Reached(o, 0, old(asked), old(pads), canAllocate)
    {
      activation := activation + 1;
      var context := Cursor(-1, Stack(activation), Stack(activation));
      var r := Phase1(context);
      if r.NotFound? {
        return EndOfStack;
      }
      if r.SearchFailed? {
        return Failure;
      }
      barrierSp := frames[r.frame].cfa;
      context := Cursor(-1, Stack(activation), Stack(activation));
      o := Phase2(context, true, canAllocate);
    }

    /** _Unwind_Resume, called at the end of a cleanup landing pad. */
    method Resume(canAllocate: bool) returns (o: Outcome)
      requires Owned()
      modifies this
      ensures Owned() && barrierSp == old(barrierSp)
      ensures match old(reserved4)
        case None => o == Aborted && asked == old(asked) && pads == old(pads) && reserved4 == None
        case Some(id) =>
          Reached(o, old(heap[id].frame), old(asked), old(pads), canAllocate)
    {
      activation := activation + 1;
      if reserved4 == None {
        return Aborted;
      }
      var snap := reserved4.value;
      reserved4 := None;
      var context := heap[snap];
      Free(snap);
      context := context.(uc := Stack(activation), asArg := Stack(activation));
      o := Phase2(context, false, canAllocate);
    }

    /** _Unwind_Resume_or_Rethrow: an unwind in progress goes on, otherwise a new one starts. */
    method ResumeOrRethrow(canAllocate: bool) returns (o: Outcome)
      requires Owned()
      modifies this
      ensures Owned()
      ensures match old(reserved4)
        case Some(id) => barrierSp == old(barrierSp) && Reached(o, old(heap[id].frame), old(asked), old(pads), canAllocate)
        case None =>
          match SearchFrom(frames, 0, endsCleanly)
          case NotFound => o == EndOfStack && asked == old(asked) && pads == old(pads) && reserved4 == None
          case SearchFailed => o == Failure && asked == old(asked) && pads == old(pads) && reserved4 == None
          case Found(h) => barrierSp == frames[h].cfa && Reached(o, 0, old(asked), old(pads), canAllocate)
    {
      if reserved4 != None {
        o := Resume(canAllocate);
      } else {
        o := RaiseException(canAllocate);
      }
    }

    /**
     One throw: raise, then resume at the end of every cleanup pad until the
     handler or an abort. What becomes of it is told by the frame that decides
     the search, if there is one.
     */
    method Throw() returns (o: Outcome, haveMemory: bool)
      requires Owned() && reserved4 == None && asked == [] && pads == []
      modifies this
      ensures Owned()
      ensures AllContinue(frames, 0, |frames|, SearchAnswer()) ==>
        o == (if endsCleanly then EndOfStack else Failure) && pads == [] && asked == []
      ensures forall h: nat :: Decides(frames, 0, h, SearchAnswer()) ==>
        if frames[h].search == HandlerFound then Caught(h, o, haveMemory) else o == Failure && pads == [] && asked == []
    {
      haveMemory := *;
      o := RaiseException(haveMemory);
      if o.Installed? {
        CourseBegins(frames, barrierSp);
        o, haveMemory := RunCleanups(o.frame, haveMemory, PadsFrom(frames, 0, barrierSp), AskedFrom(frames, 0, barrierSp));
      }
      SearchIff(frames, 0, endsCleanly, 0);
      forall h: nat | Decides(frames, 0, h, SearchAnswer())
        ensures if frames[h].search == HandlerFound then Caught(h, o, haveMemory) else o == Failure && pads == [] && asked == []
      {
        SearchIff(frames, 0, endsCleanly, h);
        if frames[h].search == HandlerFound && IncreasingCfas(frames) && Cooperative(frames, 0, h) {
          PadsInOrder(frames, 0, h);
          AskedInOrder(frames, 0, h);
        }
      }
    }

    /** A throw with its handler at frame h: pads and questions as planned as far as memory lasts, and to the end if it does. */
    ghost predicate Caught(h: nat, o: Outcome, haveMemory: bool)
      requires h < |frames|
      reads this
    {
      && Over(o, haveMemory, PadsFrom(frames, 0, frames[h].cfa), AskedFrom(frames, 0, frames[h].cfa))
      && barrierSp == frames[h].cfa
      && (haveMemory && IncreasingCfas(frames) && Cooperative(frames, 0, h) ==>
            && o == Installed(h) && pads == CleanupsBetween(frames, 0, h) + [h]
            && asked == AskedBetween(frames, 0, h + 1))
    }

    /** The pad installed at frame j can be followed by a resume whenever memory was found for its snapshot. */
    ghost predicate AtPad(j: int, haveMemory: bool, all: seq<nat>, allAsked: seq<nat>)
      reads this
    {
      && 0 <= j < |frames| && Owned()
      && (reserved4.Some? ==> Resumable(frames, j, barrierSp) && heap[reserved4.value].frame == j + 1)
      && (haveMemory && Resumable(frames, j, barrierSp) ==> reserved4.Some?)
      && OnCourse(frames, barrierSp, all, allAsked, pads, asked, j)
      && EndsAt(Installed(j))
    }

    /** Control is in the last pad installed; where the throw ends without a handler, that pad was a cleanup. */
    ghost predicate EndsAt(o: Outcome)
      reads this
    {
      match o
      case Installed(j) => pads != [] && pads[|pads| - 1] == j
      case _ => pads != [] ==> pads[|pads| - 1] < |frames| && frames[pads[|pads| - 1]].cfa != barrierSp
    }

    /** What is left when a throw is over. */
    ghost predicate Over(o: Outcome, haveMemory: bool, all: seq<nat>, allAsked: seq<nat>)
      reads this
    {
      && Owned() && reserved4 == None && heap == map[]
      && pads <= all && asked <= allAsked
      && (haveMemory ==> pads == all && asked == allAsked)
      && (o == Aborted || (o.Installed? && o.frame < |frames| && frames[o.frame].cfa == barrierSp))
      && EndsAt(o)
    }

    /** Resume at the end of the cleanup pad at frame j. */
    method ResumeAt(j: nat, memory: bool, ghost all: seq<nat>, ghost allAsked: seq<nat>)
      returns (o: Outcome, haveMemory: bool)
      requires AtPad(j, memory, all, allAsked) && frames[j].cfa != barrierSp
      modifies this
      ensures barrierSp == old(barrierSp)
      ensures if o.Installed? then o.frame > j && AtPad(o.frame, haveMemory, all, allAsked)
              else Over(o, haveMemory, all, allAsked)
    {
      if Resumable(frames, j, barrierSp) {
        CourseStep(frames, barrierSp, all, allAsked, pads, asked, j);
      }
      var canAllocate: bool := *;
      o := Resume(canAllocate);
      haveMemory := memory && canAllocate;
    }

    /** Resume at the end of each cleanup pad, from the first at frame j on. */
    method RunCleanups(first: nat, memory: bool, ghost all: seq<nat>, ghost allAsked: seq<nat>)
      returns (o: Outcome, haveMemory: bool)
      requires AtPad(first, memory, all, allAsked)
      modifies this
      ensures barrierSp == old(barrierSp) && Over(o, haveMemory, all, allAsked)
    {
      o, haveMemory := Installed(first), memory;
      while frames[o.frame].cfa != barrierSp
        invariant o.Installed? && AtPad(o.frame, haveMemory, all, allAsked) && barrierSp == old(barrierSp)
        decreases |frames| - o.frame
      {
        o, haveMemory := ResumeAt(o.frame, haveMemory, all, allAsked);
        if !o.Installed? {
          return;
        }
      }
    }
  }
}
