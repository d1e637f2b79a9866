/**
 The scan of a procedure's instructions up to ip, and the trackers as the
 updates it makes to its local state.
 */
module FrameScan {
  import opened Machine
  import opened Prologue
  import opened PrologueRun

  /** Two instructions, as one 64-bit word of little-endian memory holds them. */
  datatype CodeWord = CodeWord(low: bv32, high: bv32)

  /** The code that can be read, by the word. */
  type Text = map<word, CodeWord>

  // ----- what the scan should see -----

  function WordAt(text: Text, a: int): CodeWord {
    if 0 <= a < TWO_64 && a in text then text[a] else CodeWord(0, 0)
  }

  /** Instruction number k after start. */
  function InsnAt(text: Text, start: int, k: nat): bv32 {
    var w := WordAt(text, start + k / 2 * 8);
    if k % 2 == 0 then w.low else w.high
  }

  function Code(text: Text, start: int, n: nat): (code: seq<bv32>)
    ensures |code| == n
    ensures forall k :: 0 <= k < n ==> code[k] == InsnAt(text, start, k)
  {
    if n == 0 then [] else Code(text, start, n - 1) + [InsnAt(text, start, n - 1)]
  }

  /** The scan reads every word of code from a up to ip, and its address does not wrap before it is past ip. */
  predicate Readable(text: Text, a: word, ip: word)
    decreases ip - a
  {
    a < ip ==> a in text && a + 8 < TWO_64 && (a + 8 < ip ==> Readable(text, a + 8, ip))
  }

  /** Where the scan's address can wrap at the end of the address space, its beginning cannot be read. */
  predicate WrapGuarded(text: Text, ip: word) {
    ip + 8 < TWO_64 || forall a: word :: a < 8 ==> a !in text
  }

  /** The number of instructions from a up to ip, or up to the first word that cannot be read. */
  function Fetched(text: Text, a: word, ip: word): nat
    decreases ip - a
  {
    if a >= ip || a !in text then 0
    else if ip <= a + 4 then 1
    else if ip <= a + 8 then 2
    else 2 + Fetched(text, a + 8, ip)
  }

  /** The scan's answer from those of the two trackers. */
  function Merged(t: SpTrack, f: FrameState): FrameState {
    if f.loc == NoRecord then FrameState(NoRecord, t.offset) else f
  }

  /** What the scan from start to ip finds; an unreadable word ends it without the SP offset. */
  function StateAt(text: Text, start: word, ip: word): FrameState {
    var code := Code(text, start, Fetched(text, start, ip));
    if Readable(text, start, ip) then Merged(ScanSp(code), ScanRecord(code)) else ScanRecord(code)
  }

  /** The instructions scanned are those at start + 4k below ip: all of them, and no other. */
  lemma {:induction false} ScanIsExact(text: Text, start: word, ip: word, k: nat)
    requires Readable(text, start, ip)
    ensures k < Fetched(text, start, ip) <==> start + 4 * k < ip
    decreases ip - start
  {
    if start + 8 < ip && k >= 2 {
      ScanIsExact(text, start + 8, ip, k - 2);
    }
  }

  lemma {:induction false} NoRecordNoOffset(code: seq<bv32>)
    ensures ScanRecord(code).loc == NoRecord ==> ScanRecord(code).offset == 0
  {
    if code != [] {
      NoRecordNoOffset(code[..|code| - 1]);
    }
  }

  /** A procedure that cannot be read up to ip gives no SP offset: only a record found before counts. */
  lemma UnreadableGivesNoOffset(text: Text, start: word, ip: word)
    requires !Readable(text, start, ip)
    ensures StateAt(text, start, ip).loc == NoRecord ==> StateAt(text, start, ip) == NO_RECORD
  {
    NoRecordNoOffset(Code(text, start, Fetched(text, start, ip)));
  }

  ghost predicate IsCode(code: seq<bv32>, text: Text, start: int, n: nat) {
    code == Code(text, start, n)
  }

  ghost predicate IsNext(text: Text, start: int, n: nat, insn: bv32) {
    Code(text, start, n + 1) == Code(text, start, n) + [insn]
  }

  // ----- the trackers in place -----

  class Tracker {
    var spState: SpState
    var spOffset: int
    var loc: RecordLoc
    var offset: int

    function Sp(): SpTrack
      reads this`spState, this`spOffset
    {
      SpTrack(spState, spOffset)
    }

    function Record(): FrameState
      reads this`loc, this`offset
    {
      FrameState(loc, offset)
    }

    constructor ()
      ensures Sp() == SP_START && Record() == NO_RECORD
    {
      spState, spOffset, loc, offset := SpUnchanged, 0, NoRecord, 0;
    }

    method Lower(imm: int)
      modifies this`spState, this`spOffset
      ensures Sp() == Down(old(Sp()), imm)
    {
      if spState != SpUnchanged {
        spState, spOffset := SpUnknown, 0;
      } else {
        spState, spOffset := SpAdjusted, imm;
      }
    }

    method Raise(imm: int)
      modifies this`spState, this`spOffset
      ensures Sp() == Up(old(Sp()), imm)
    {
      if spState == SpAdjusted && spOffset == imm {
        spState := SpUnchanged;
      } else {
        spState := SpUnknown;
      }
      spOffset := 0;
    }

    method Lose()
      modifies this`spState, this`spOffset
      ensures Sp() == SP_LOST
    {
      spState, spOffset := SpUnknown, 0;
    }

    /** A push by imm bytes. */
    method LowerIf(imm: int)
      modifies this`spState, this`spOffset
      ensures Sp() == if imm > 0 then Down(old(Sp()), imm) else SP_LOST
    {
      if imm > 0 {
        Lower(imm);
      } else {
        Lose();
      }
    }

    /** A pop of imm bytes. */
    method RaiseIf(imm: int)
      modifies this`spState, this`spOffset
      ensures Sp() == if imm > 0 then Up(old(Sp()), imm) else SP_LOST
    {
      if imm > 0 {
        Raise(imm);
      } else {
        Lose();
      }
    }

    method PushPair(insn: bv32)
      modifies this`spState, this`spOffset
      ensures Sp() == TrackPushPair(insn, old(Sp()))
    {
      if !NamesRecord(insn) {
        LowerIf(-Imm7(insn) * 8);
      }
    }

    method PopPair(insn: bv32)
      modifies this`spState, this`spOffset
      ensures Sp() == TrackPopPair(insn, old(Sp()))
    {
      if !NamesRecord(insn) {
        RaiseIf(Imm7(insn) * 8);
      }
    }

    method TrackPushOrPop(insn: bv32)
      modifies this`spState, this`spOffset
      ensures Sp() == TrackMove(insn, old(Sp()))
    {
      if IsPushPair(insn) {
        PushPair(insn);
      } else if IsPopPair(insn) {
        PopPair(insn);
      } else if IsPushReg(insn) {
        LowerIf(-Imm9(insn));
      } else if IsPopReg(insn) {
        RaiseIf(Imm9(insn));
      } else if IsSpFromFp(insn) || IsSpPlusReg(insn) {
        Lose();
      }
    }

    /** track_stack_pointer */
    method TrackStackPointer(insn: bv32)
      modifies this`spState, this`spOffset
      ensures Sp() == TrackSp(insn, old(Sp()))
    {
      if spState == SpUnknown {
        return;
      }
      if spState == SpUnchanged && IsBranch(insn) {
        Lose();
      } else if IsSubSp(insn) {
        var imm := Imm12(insn);
        if imm != 0 {
          Lower(imm);
        }
      } else if IsAddSp(insn) {
        var imm := Imm12(insn);
        if imm != 0 {
          Raise(imm);
        }
      } else {
        TrackPushOrPop(insn);
      }
    }

    /** track_frame_record */
    method TrackFrameRecord(insn: bv32)
      modifies this`loc, this`offset
      ensures Record() == TrackRecord(insn, old(Record()))
    {
      if loc == NoRecord {
        if StoresRecord(insn) {
          loc := AtSpOffset;
          if StoresRecordAt(insn) {
            offset := Imm7(insn) * 8;
          } else {
            offset := 0;
          }
        }
      } else if loc == AtSpOffset {
        if SetsFp(insn) {
          loc, offset := AtFp, 0;
        }
      } else if LoadsRecord(insn) {
        loc, offset := NoRecord, 0;
      }
    }

    /** The trackers have seen the first n instructions after start. */
    ghost predicate Saw(text: Text, start: int, n: nat)
      reads this
    {
      forall code :: IsCode(code, text, start, n) ==> Sp() == ScanSp(code) && Record() == ScanRecord(code)
    }

    method Feed(insn: bv32, ghost text: Text, ghost start: int, ghost n: nat)
      requires Saw(text, start, n) && IsNext(text, start, n, insn)
      modifies this
      ensures Saw(text, start, n + 1)
    {
      ghost var code := Code(text, start, n);
      assert IsCode(code, text, start, n);
      assert (code + [insn])[..n] == code;
      TrackStackPointer(insn);
      TrackFrameRecord(insn);
    }

    /** Feed the halves of the word at a that are below ip. */
    method FeedWord(w: CodeWord, a: word, ip: word, ghost text: Text, ghost start: int, ghost n: nat)
      requires n % 2 == 0 && a == start + 4 * n && a in text && text[a] == w && a < ip
      requires Saw(text, start, n)
      modifies this
      ensures Saw(text, start, Past(a, ip, n))
    {
      HalfAt(text, start, n, 0);
      Feed(w.low, text, start, n);
      if a + 4 < ip {
        HalfAt(text, start, n, 1);
        Feed(w.high, text, start, n + 1);
      }
    }
  }

  /** The number of instructions seen once the word at a is. */
  function Past(a: word, ip: word, n: nat): nat {
    n + if a + 4 < ip then 2 else 1
  }

  lemma HalfAt(text: Text, start: int, n: nat, j: nat)
    requires n % 2 == 0 && j < 2 && 0 <= start + 4 * n < TWO_64 && start + 4 * n in text
    ensures IsNext(text, start, n + j, if j == 0 then text[start + 4 * n].low else text[start + 4 * n].high)
  {
    assert (n + j) / 2 * 8 == 4 * n;
    assert InsnAt(text, start, n + j) == if j == 0 then text[start + 4 * n].low else text[start + 4 * n].high;
  }

  /** The scan has reached a after n instructions. */
  ghost predicate Reached(text: Text, start: word, ip: word, a: word, n: nat) {
    && n + Fetched(text, a, ip) == Fetched(text, start, ip)
    && Readable(text, a, ip) == Readable(text, start, ip)
    && (a < ip && a in text ==> n % 2 == 0 && a == start + 4 * n)
  }

  lemma ReachNext(text: Text, start: word, ip: word, a: word, n: nat)
    requires Reached(text, start, ip, a, n) && a < ip && a in text && WrapGuarded(text, ip)
    ensures Reached(text, start, ip, U64(a + 8), Past(a, ip, n))
    ensures U64(a + 8) == a + 8 || U64(a + 8) !in text
  {
  }

  /**
   get_frame_state: `name` is how far ip is into its procedure, if the procedure
   is known.
   */
  method GetFrameState(text: Text, ip: word, name: Option<word>, isPlt: bool) returns (fs: FrameState)
    requires WrapGuarded(text, ip)
    ensures isPlt || name.None? ==> fs == NO_RECORD
    ensures !isPlt && name.Some? ==> fs == StateAt(text, U64(ip - name.value), ip)
  {
    if isPlt || name.None? {
      return NO_RECORD;
    }
    var start := U64(ip - name.value);
    var t := new Tracker();
    var a: word := start;
    ghost var n := 0;
    while a < ip
      invariant Reached(text, start, ip, a, n)
      invariant t.Saw(text, start, n)
      decreases if a in text then TWO_64 - a else 0
    {
      if a !in text {
        assert IsCode(Code(text, start, n), text, start, n);
        return t.Record();
      }
      t.FeedWord(text[a], a, ip, text, start, n);
      ReachNext(text, start, ip, a, n);
      n := Past(a, ip, n);
      a := U64(a + 8);
    }
    assert IsCode(Code(text, start, n), text, start, n);
    fs := t.Record();
    if fs.loc == NoRecord {
      fs := FrameState(NoRecord, t.spOffset);
    }
  }
}
