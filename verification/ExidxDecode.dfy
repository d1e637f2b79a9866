/**
 The ARM EHABI unwind bytecode: its decoder and the effect of its commands on
 the unwind cursor, against the instruction table of section 9.3 of IHI 0038.
 */
module ExidxDecode {
  import opened Machine
  import opened Bits
  import opened Base128

  const CORE_REGS: nat := 16
  const LR: nat := 14
  const PC: nat := 15
  const S0: nat := 64          // index of the first VFP location

  /** The cursor: absent locations are null. */
  datatype State = State(cfa: word32, ip: word32, loc: map<nat, word32>)

  type Memory = map<word32, word32>

  datatype Command =
    | Finish
    | DataPush(n: word32)
    | DataPop(n: word32)
    | RegPop(mask: nat)
    | RegToSp(r: nat)
    | VfpPop(first: nat, count: nat, double: bool)
    | WregPop(first: nat, count: nat)
    | WcgrPop(mask: nat)
    | Reserved
    | Refused

  predicate Bit(m: nat, i: nat) {
    if i == 0 then m % 2 == 1 else Bit(m / 2, i - 1)
  }

  // ----- what a command does -----

  /** dwarf_get into v, which stays when there is nothing to read. */
  function Get(mem: Memory, loc: map<nat, word32>, r: nat, v: word32): word32 {
    if r in loc && loc[r] in mem then mem[loc[r]] else v
  }

  function PopSlot(st: State, r: nat, size: nat): State {
    st.(loc := st.loc[r := st.cfa], cfa := U32(st.cfa + size))
  }

  /** Pop those of the first n core registers that are in mask, lowest first. */
  function PopRegs(mask: nat, n: nat, st: State): State {
    if n == 0 then st
    else
      var st' := PopRegs(mask, n - 1, st);
      if Bit(mask, n - 1) then PopSlot(st', n - 1, 4) else st'
  }

  function PopVfp(i: nat, last: nat, st: State): State
    decreases last + 1 - i
  {
    if i > last then st else PopVfp(i + 1, last, PopSlot(st, S0 + i, 8))
  }

  function BitCount(mask: nat, n: nat): nat {
    if n == 0 then 0 else BitCount(mask, n - 1) + if Bit(mask, n - 1) then 1 else 0
  }

  /** arm_exidx_apply_cmd; none for the negative return. */
  function Apply(mem: Memory, st: State, cmd: Command): Option<State> {
    match cmd
    case Finish =>
      var loc := if PC in st.loc then st.loc else if LR in st.loc then st.loc[PC := st.loc[LR]] else st.loc;
      Some(st.(loc := loc, ip := Get(mem, loc, PC, st.ip)))
    case DataPush(n) => Some(st.(cfa := U32(st.cfa - n)))
    case DataPop(n) => Some(st.(cfa := U32(st.cfa + n)))
    case RegPop(mask) =>
      var st' := PopRegs(mask, CORE_REGS, st);
      Some(if Bit(mask, 13) then st'.(cfa := Get(mem, st'.loc, 13, st'.cfa)) else st')
    case RegToSp(r) =>
      var loc := if r in st.loc then st.loc[13 := st.loc[r]] else st.loc - {13};
      Some(st.(loc := loc, cfa := Get(mem, loc, 13, st.cfa)))
    case VfpPop(first, count, double) =>
      var st' := PopVfp(first, first + count, st);
      Some(if double then st' else st'.(cfa := U32(st'.cfa + 4)))
    case WregPop(first, count) => Some(st.(cfa := U32(st.cfa + 8 * (count + 1))))
    case WcgrPop(mask) => Some(st.(cfa := U32(st.cfa + 4 * BitCount(mask, 4))))
    case Reserved | Refused => None
  }

  // ----- decoding -----

  /** The bytes of a ULEB128 number: all but the last have bit 7 set. */
  function UlebEnd(buf: seq<byte>, i: nat): Option<nat>
    decreases |buf| - i
  {
    if i >= |buf| then None
    else if buf[i] >= 0x80 then UlebEnd(buf, i + 1)
    else Some(i + 1)
  }

  function VfpCommand(data: byte, double: bool): Command {
    VfpPop(data / 16, data % 16, double)
  }

  /** A two-byte opcode's command, given its second byte. */
  function Decode2(op: byte, op2: byte): Command {
    if op < 0x90 then
      if op == 0x80 && op2 == 0 then Refused else RegPop((op % 16 * 256 + op2) * 16)
    else if op == 0xb1 then
      if op2 == 0 || op2 >= 16 then Reserved else RegPop(op2)
    else if op == 0xb3 || op == 0xc8 || op == 0xc9 then VfpCommand(op2, op != 0xb3)
    else if op == 0xc6 then WregPop(op2 / 16, op2 % 16)
    else if op2 == 0 || op2 >= 16 then Reserved else WcgrPop(op2)
  }

  predicate TwoBytes(op: byte) {
    0x80 <= op < 0x90 || op == 0xb1 || op == 0xb3 || op == 0xc8 || op == 0xc9 || op == 0xc6 || op == 0xc7
  }

  /** A one-byte opcode's command. */
  function Decode1(op: byte): Command {
    if op < 0x40 then DataPop(op % 64 * 4 + 4)
    else if op < 0x80 then DataPush(op % 64 * 4 + 4)
    else if 0x90 <= op < 0xa0 then
      if op == 0x9d || op == 0x9f then Reserved else RegToSp(op % 16)
    else if 0xa0 <= op < 0xb0 then
      RegPop((Pow2(op % 8 + 1) - 1) * 16 + if op / 8 % 2 == 1 then 0x4000 else 0)
    else if op == 0xb0 then Finish
    else if 0xb8 <= op < 0xc0 || 0xd0 <= op < 0xd8 then VfpPop(8, op % 8, op >= 0xd0)
    else if 0xc0 <= op <= 0xc5 then WregPop(10, op % 8)
    else Reserved
  }

  /** The command at position i and the position after it; none if it runs over the end. */
  function DecodeAt(buf: seq<byte>, i: nat): (r: Option<(Command, nat)>)
    requires i < |buf|
    ensures r.Some? ==> i < r.value.1 <= |buf|
  {
    var op := buf[i];
    if op == 0xb2 then
      (match UlebEnd(buf, i + 1)
       case None => None
       case Some(j) =>
         UlebEndAfter(buf, i + 1);
         Some((DataPop(U32(U32(Payload(buf[i + 1..j])) * 4 + 0x204)), j)))
    else if TwoBytes(op) then
      if i + 1 < |buf| then Some((Decode2(op, buf[i + 1]), i + 2)) else None
    else Some((Decode1(op), i + 1))
  }

  lemma {:induction false} UlebEndAfter(buf: seq<byte>, i: nat)
    ensures UlebEnd(buf, i).Some? ==> i < UlebEnd(buf, i).value <= |buf|
    decreases |buf| - i
  {
    if i < |buf| {
      UlebEndAfter(buf, i + 1);
    }
  }

  datatype Result = Done(st: State) | Failed(st: State) | Overrun

  /** arm_exidx_decode from position i. */
  function Execute(mem: Memory, buf: seq<byte>, i: nat, st: State): Result
    decreases |buf| - i
  {
    if i >= |buf| then Done(st)
    else
      match DecodeAt(buf, i)
      case None => Overrun
      case Some((cmd, j)) =>
        match Apply(mem, st, cmd)
        case None => Failed(st)
        case Some(st') => if cmd == Finish then Done(st') else Execute(mem, buf, j, st')
  }

  lemma UlebAppend(digits: seq<byte>, b: byte, shift: nat)
    requires shift == 7 * |digits|
    ensures WithGroup(U32(Payload(digits)), b, shift, HALF_WORD_BITS) == U32(Payload(digits + [b]))
  {
    HalfWordIsPow2();
    GroupJoins(digits, b, shift, HALF_WORD_BITS);
  }

  lemma UlebEndStep(buf: seq<byte>, i: nat)
    requires i < |buf|
    ensures UlebEnd(buf, i) == if buf[i] >= 0x80 then UlebEnd(buf, i + 1) else Some(i + 1)
  {
  }

  // ----- the decoder as the source runs it -----

  /** The dwarf_cursor fields the commands work on. */
  class DwarfCursor {
    const mem: Memory
    var cfa: word32
    var ip: word32
    var loc: map<nat, word32>

    function Value(): State
      reads this
    {
      State(cfa, ip, loc)
    }

    /** dwarf_get(c, c->loc[r], v) */
    method GetReg(r: nat, v: word32) returns (v': word32)
      ensures v' == Get(mem, loc, r, v)
    {
      v' := v;
      if r in loc && loc[r] in mem {
        v' := mem[loc[r]];
      }
    }

    /** Record register r at the stack pointer and move it. */
    method Pop(r: nat, size: nat)
      modifies this
      ensures Value() == PopSlot(old(Value()), r, size)
    {
      loc := loc[r := cfa];
      cfa := U32(cfa + size);
    }

    /** Pop the core registers under the mask. */
    method PopCore(mask: nat)
      modifies this
      ensures Value() == PopRegs(mask, CORE_REGS, old(Value()))
    {
      for i := 0 to CORE_REGS
        invariant Value() == PopRegs(mask, i, old(Value()))
      {
        if Bit(mask, i) {
          Pop(i, 4);
        }
      }
    }

    /** Pop the double registers first to last. */
    method PopDoubles(first: nat, last: nat)
      requires first <= last
      modifies this
      ensures Value() == PopVfp(first, last, old(Value()))
    {
      var i := first;
      while i <= last
        invariant first <= i <= last + 1
        invariant PopVfp(first, last, old(Value())) == PopVfp(i, last, Value())
      {
        Pop(S0 + i, 8);
        i := i + 1;
      }
    }

    /** Move past the WMMX data registers first to first + count. */
    method SkipDoubles(first: nat, count: nat)
      modifies this`cfa
      ensures cfa == U32(old(cfa) + 8 * (count + 1))
    {
      var i := first;
      while i <= first + count
        invariant first <= i <= first + count + 1
        invariant cfa == U32(old(cfa) + 8 * (i - first))
      {
        U32Adds(old(cfa) + 8 * (i - first), 8);
        cfa := U32(cfa + 8);
        i := i + 1;
      }
    }

    /** Move past the WMMX control registers under the mask. */
    method SkipControl(mask: nat)
      modifies this`cfa
      ensures cfa == U32(old(cfa) + 4 * BitCount(mask, 4))
    {
      for i := 0 to 4
        invariant cfa == U32(old(cfa) + 4 * BitCount(mask, i))
      {
        if Bit(mask, i) {
          U32Adds(old(cfa) + 4 * BitCount(mask, i), 4);
          cfa := U32(cfa + 4);
        }
      }
    }

    /** arm_exidx_apply_cmd */
    method ApplyCmd(cmd: Command) returns (ret: int)
      modifies this
      ensures ret < 0 <==> Apply(mem, old(Value()), cmd).None?
      ensures Value() == if ret < 0 then old(Value()) else Apply(mem, old(Value()), cmd).value
    {
      ret := 0;
      match cmd {
        case Finish =>
          if PC !in loc && LR in loc {
            loc := loc[PC := loc[LR]];
          }
          ip := GetReg(PC, ip);
        case DataPush(n) =>
          cfa := U32(cfa - n);
        case DataPop(n) =>
          cfa := U32(cfa + n);
        case RegPop(mask) =>
          PopCore(mask);
          if Bit(mask, 13) {
            cfa := GetReg(13, cfa);
          }
        case RegToSp(r) =>
          loc := if r in loc then loc[13 := loc[r]] else loc - {13};
          cfa := GetReg(13, cfa);
        case VfpPop(first, count, double) =>
          PopDoubles(first, first + count);
          if !double {
            cfa := U32(cfa + 4);
          }
        case WregPop(first, count) =>
          SkipDoubles(first, count);
        case WcgrPop(mask) =>
          SkipControl(mask);
        case Reserved =>
          ret := -1;
        case Refused =>
          ret := -1;
      }
    }

    /** The inner loop for opcode 0xb2: offset |= (byte & 0x7f) << shift. */
    method ReadUleb(buf: seq<byte>, start: nat) returns (offset: word32, next: nat)
      requires UlebEnd(buf, start).Some?
      ensures UlebEnd(buf, start) == Some(next) && start < next <= |buf|
      ensures offset == U32(Payload(buf[start..next]))
    {
      offset, next := 0, start;
      var shift := 0;
      while true
        invariant start <= next <= |buf| && shift == 7 * (next - start)
        invariant UlebEnd(buf, start) == UlebEnd(buf, next)
        invariant offset == U32(Payload(buf[start..next]))
        decreases |buf| - next
      {
        UlebEndStep(buf, next);
        var b := buf[next];
        UlebAppend(buf[start..next], b, shift);
        assert buf[start..next] + [b] == buf[start..next + 1];
        offset := WithGroup(offset, b, shift, HALF_WORD_BITS);
        next := next + 1;
        shift := shift + 7;
        if b < 0x80 {
          return;
        }
      }
    }

    /** The command at position i. */
    method DecodeOne(buf: seq<byte>, i: nat) returns (cmd: Command, next: nat)
      requires i < |buf| && DecodeAt(buf, i).Some?
      ensures DecodeAt(buf, i) == Some((cmd, next))
    {
      var op := buf[i];
      next := i + 1;
      if op == 0xb2 {
        var offset: int;
        offset, next := ReadUleb(buf, next);
        cmd := DataPop(U32(offset * 4 + 0x204));
      } else if TwoBytes(op) {
        cmd := Decode2(op, buf[next]);
        next := next + 1;
      } else {
        cmd := Decode1(op);
      }
    }

    /** arm_exidx_decode; the caller's string does not run over its end. */
    method Decode(buf: seq<byte>) returns (ret: int)
      requires Execute(mem, buf, 0, Value()) != Overrun
      modifies this
      ensures Execute(mem, buf, 0, old(Value())) == if ret < 0 then Failed(Value()) else Done(Value())
    {
      var i := 0;
      while i < |buf|
        invariant i <= |buf|
        invariant Execute(mem, buf, 0, old(Value())) == Execute(mem, buf, i, Value())
        decreases |buf| - i
      {
        var cmd, next := DecodeOne(buf, i);
        ret := ApplyCmd(cmd);
        if ret < 0 {
          return;
        }
        if cmd == Finish {
          return;
        }
        i := next;
      }
      ret := 0;
    }
  }

  // ----- the instruction table -----

  /** The unwinding instructions of section 9.3, one constructor a row. */
  datatype Instruction =
    | VspAdd(x: nat)                        // 00xxxxxx
    | VspSub(x: nat)                        // 01xxxxxx
    | RefuseToUnwind                        // 10000000 00000000
    | PopHigh(mask: nat)                    // 1000iiii iiiiiiii: under mask from {r15-r12},{r11-r4}
    | VspFrom(r: nat)                       // 1001nnnn
    | PopRange(n: nat, lr: bool)            // 1010Lnnn: r4-r[4+nnn], and r14
    | PopLow(mask: nat)                     // 10110001 0000iiii: under mask from {r3-r0}
    | VspAddUleb(digits: seq<byte>)         // 10110010 uleb128
    | PopDFstmx(first: nat, count: nat)     // 10110011 sssscccc
    | PopD8Fstmx(count: nat)                // 10111nnn
    | PopWr10(count: nat)                   // 11000nnn, nnn <= 5
    | PopWr(first: nat, count: nat)         // 11000110 sssscccc
    | PopWcgr(mask: nat)                    // 11000111 0000iiii
    | PopD16(first: nat, count: nat)        // 11001000 sssscccc
    | PopD(first: nat, count: nat)          // 11001001 sssscccc
    | PopD8(count: nat)                     // 11010nnn
    | Spare(code: seq<byte>)

  predicate IsUleb(digits: seq<byte>) {
    WellFormed(digits) && |digits| <= 5
  }

  predicate IsSpare(code: seq<byte>) {
    || (|code| == 1 && !TwoBytes(code[0]) && code[0] != 0xb2 && code[0] >= 0x90 && Decode1(code[0]) == Reserved)
    || (|code| == 2 && (code[0] == 0xb1 || code[0] == 0xc7) && (code[1] == 0 || code[1] >= 16))
  }

  predicate Valid(op: Instruction) {
    match op
    case VspAdd(x) => x < 64
    case VspSub(x) => x < 64
    case RefuseToUnwind => true
    case PopHigh(mask) => 0 < mask < 0x1000
    case VspFrom(r) => r < 16 && r != 13 && r != 15
    case PopRange(n, _) => n < 8
    case PopLow(mask) => 0 < mask < 16
    case VspAddUleb(digits) => IsUleb(digits)
    case PopDFstmx(s, c) => s < 16 && c < 16
    case PopD8Fstmx(n) => n < 8
    case PopWr10(n) => n < 6
    case PopWr(s, c) => s < 16 && c < 16
    case PopWcgr(mask) => 0 < mask < 16
    case PopD16(s, c) => s < 16 && c < 16
    case PopD(s, c) => s < 16 && c < 16
    case PopD8(n) => n < 8
    case Spare(code) => IsSpare(code)
  }

  function Encode(op: Instruction): (code: seq<byte>)
    requires Valid(op)
    ensures |code| > 0
  {
    match op
    case VspAdd(x) => [x]
    case VspSub(x) => [0x40 + x]
    case RefuseToUnwind => [0x80, 0]
    case PopHigh(mask) => [0x80 + mask / 256, mask % 256]
    case VspFrom(r) => [0x90 + r]
    case PopRange(n, lr) => [0xa0 + n + if lr then 8 else 0]
    case PopLow(mask) => [0xb1, mask]
    case VspAddUleb(digits) => [0xb2] + digits
    case PopDFstmx(s, c) => [0xb3, 16 * s + c]
    case PopD8Fstmx(n) => [0xb8 + n]
    case PopWr10(n) => [0xc0 + n]
    case PopWr(s, c) => [0xc6, 16 * s + c]
    case PopWcgr(mask) => [0xc7, mask]
    case PopD16(s, c) => [0xc8, 16 * s + c]
    case PopD(s, c) => [0xc9, 16 * s + c]
    case PopD8(n) => [0xd0 + n]
    case Spare(code) => code
  }

  /** The command the decoder should make of an instruction. */
  function CommandOf(op: Instruction): Command
    requires Valid(op)
  {
    match op
    case VspAdd(x) => DataPop(4 * x + 4)
    case VspSub(x) => DataPush(4 * x + 4)
    case RefuseToUnwind => Refused
    case PopHigh(mask) => RegPop(16 * mask)
    case VspFrom(r) => RegToSp(r)
    case PopRange(n, lr) => RegPop((Pow2(n + 1) - 1) * 16 + if lr then 0x4000 else 0)
    case PopLow(mask) => RegPop(mask)
    case VspAddUleb(digits) => DataPop(U32(0x204 + 4 * Payload(digits)))
    case PopDFstmx(s, c) => VfpPop(s, c, false)
    case PopD8Fstmx(n) => VfpPop(8, n, false)
    case PopWr10(n) => WregPop(10, n)
    case PopWr(s, c) => WregPop(s, c)
    case PopWcgr(mask) => WcgrPop(mask)
    case PopD16(s, c) => VfpPop(s, c, true)
    case PopD(s, c) => VfpPop(s, c, true)
    case PopD8(n) => VfpPop(8, n, true)
    case Spare(_) => Reserved
  }
}
