/**
 The bytecode decoder against the instruction table: every instruction string is
 decoded into its instructions, and each has the table's effect on the cursor.
 */
module ExidxTable {
  import opened Machine
  import opened Base128
  import opened ExidxDecode

  // ----- decoding inverts encoding -----

  lemma {:induction false} UlebEndFound(pre: seq<byte>, digits: seq<byte>, post: seq<byte>)
    requires IsUleb(digits)
    ensures UlebEnd(pre + digits + post, |pre|) == Some(|pre| + |digits|)
    decreases |digits|
  {
    var buf := pre + digits + post;
    assert buf[|pre|] == digits[0];
    if |digits| > 1 {
      assert pre + digits + post == (pre + [digits[0]]) + digits[1..] + post;
      UlebEndFound(pre + [digits[0]], digits[1..], post);
    }
  }

  lemma WordScale(x: int)
    ensures U32(U32(x) * 4 + 0x204) == U32(0x204 + 4 * x)
  {
    var q := x / TWO_32;
    assert U32(x) == x - TWO_32 * q;
    U32Wraps(0x204 + 4 * x, -4 * q);
  }

  /** The decoder's reading of a whole opcode other than the ULEB128 one. */
  predicate Reads(code: seq<byte>, cmd: Command) {
    && |code| > 0 && code[0] != 0xb2
    && if TwoBytes(code[0]) then |code| == 2 && Decode2(code[0], code[1]) == cmd
       else |code| == 1 && Decode1(code[0]) == cmd
  }

  lemma PopRangeDecodes(n: nat, lr: bool)
    requires n < 8
    ensures Reads(Encode(PopRange(n, lr)), CommandOf(PopRange(n, lr)))
  {
    var op := 0xa0 + n + if lr then 8 else 0;
    assert op % 8 == n && (op / 8 % 2 == 1 <==> lr);
  }

  lemma PopHighDecodes(mask: nat)
    requires 0 < mask < 0x1000
    ensures Reads(Encode(PopHigh(mask)), CommandOf(PopHigh(mask)))
  {
    var q := mask / 256;
    assert mask == 256 * q + mask % 256 && q < 16;
    assert (0x80 + q) % 16 == q;
  }

  lemma Packed(s: nat, c: nat)
    requires c < 16
    ensures (16 * s + c) / 16 == s && (16 * s + c) % 16 == c
  {
  }

  lemma PackedDecodes(op: Instruction)
    requires Valid(op) && (op.PopDFstmx? || op.PopWr? || op.PopD16? || op.PopD?)
    ensures Reads(Encode(op), CommandOf(op))
  {
    Packed(op.first, op.count);
  }

  lemma OneByteDecodes(op: Instruction)
    requires Valid(op)
    requires op.VspAdd? || op.VspSub? || op.VspFrom? || op.PopD8Fstmx? || op.PopWr10? || op.PopD8?
    ensures Reads(Encode(op), CommandOf(op))
  {
    match op
    case VspAdd(x) => assert x % 64 == x;
    case VspSub(x) => assert (0x40 + x) % 64 == x;
    case VspFrom(r) => assert (0x90 + r) % 16 == r;
    case PopD8Fstmx(n) => assert (0xb8 + n) % 8 == n;
    case PopWr10(n) => assert (0xc0 + n) % 8 == n;
    case PopD8(n) => assert (0xd0 + n) % 8 == n;
  }

  lemma OpcodeDecodes(op: Instruction)
    requires Valid(op) && !op.VspAddUleb?
    ensures Reads(Encode(op), CommandOf(op))
  {
    match op
    case PopRange(n, lr) => PopRangeDecodes(n, lr);
    case PopHigh(mask) => PopHighDecodes(mask);
    case PopDFstmx(_, _) | PopWr(_, _) | PopD16(_, _) | PopD(_, _) => PackedDecodes(op);
    case RefuseToUnwind | PopLow(_) | PopWcgr(_) | Spare(_) =>
    case _ => OneByteDecodes(op);
  }

  /** Wherever an instruction stands, the decoder reads exactly it. */
  lemma DecodesInstruction(pre: seq<byte>, op: Instruction, post: seq<byte>)
    requires Valid(op)
    ensures DecodeAt(pre + Encode(op) + post, |pre|) == Some((CommandOf(op), |pre| + |Encode(op)|))
  {
    var code := Encode(op);
    var buf := pre + code + post;
    assert buf[|pre|] == code[0];
    if op.VspAddUleb? {
      assert buf == (pre + [0xb2]) + op.digits + post;
      UlebEndFound(pre + [0xb2], op.digits, post);
      assert buf[|pre| + 1..|pre| + 1 + |op.digits|] == op.digits;
      WordScale(Payload(op.digits));
    } else {
      OpcodeDecodes(op);
      if TwoBytes(code[0]) {
        assert buf[|pre| + 1] == code[1];
      }
    }
  }

  function EncodeAll(ops: seq<Instruction>): seq<byte>
    requires forall op :: op in ops ==> Valid(op)
  {
    if ops == [] then [] else Encode(ops[0]) + EncodeAll(ops[1..])
  }

  /** The instructions' commands in order, up to the first that is refused or reserved, then FINISH. */
  function Run(mem: Memory, ops: seq<Instruction>, st: State): Result
    requires forall op :: op in ops ==> Valid(op)
  {
    if ops == [] then Done(Apply(mem, st, Finish).value)
    else
      match Apply(mem, st, CommandOf(ops[0]))
      case None => Failed(st)
      case Some(st') => Run(mem, ops[1..], st')
  }

  lemma AroundFirst(a: seq<byte>, b: seq<byte>, c: seq<byte>, d: seq<byte>, e: seq<byte>)
    ensures a + (b + c) + d + e == a + b + (c + d + e)
    ensures a + (b + c) + d + e == (a + b) + c + d + e
  {
  }

  /** Decoding a string of instructions that ends in FINISH has their effects in order, whatever follows. */
  lemma {:induction false} DecodeRunsInstructions(mem: Memory, pre: seq<byte>, ops: seq<Instruction>,
                                                  post: seq<byte>, st: State)
    requires forall op :: op in ops ==> Valid(op)
    ensures Execute(mem, pre + EncodeAll(ops) + [0xb0] + post, |pre|, st) == Run(mem, ops, st)
    decreases |ops|
  {
    var buf := pre + EncodeAll(ops) + [0xb0] + post;
    if ops == [] {
      assert buf[|pre|] == 0xb0;
      assert DecodeAt(buf, |pre|) == Some((Finish, |pre| + 1));
    } else {
      var op, rest := ops[0], EncodeAll(ops[1..]);
      assert op in ops;
      var next := pre + Encode(op);
      AroundFirst(pre, Encode(op), rest, [0xb0], post);
      DecodesInstruction(pre, op, rest + [0xb0] + post);
      assert buf == next + rest + [0xb0] + post;
      ExecuteOne(mem, buf, |pre|, st, CommandOf(op), |next|);
      match Apply(mem, st, CommandOf(op))
      case None =>
      case Some(st') => DecodeRunsInstructions(mem, next, ops[1..], post, st');
    }
  }

  lemma ExecuteOne(mem: Memory, buf: seq<byte>, i: nat, st: State, cmd: Command, j: nat)
    requires i < |buf| && DecodeAt(buf, i) == Some((cmd, j)) && cmd != Finish
    ensures i < j <= |buf|
    ensures Execute(mem, buf, i, st) ==
      match Apply(mem, st, cmd) case None => Failed(st) case Some(st') => Execute(mem, buf, j, st')
  {
  }

  /** The instruction written by the given bytes, when they are one. */
  function InstructionOf(code: seq<byte>): Instruction
    requires |code| > 0
  {
    var op: int := code[0];
    if op < 0x40 then VspAdd(op)
    else if op < 0x80 then VspSub(op - 0x40)
    else if op == 0xb2 then VspAddUleb(code[1..])
    else if |code| == 2 && TwoBytes(op) then
      var op2: int := code[1];
      if op < 0x90 then (if op == 0x80 && op2 == 0 then RefuseToUnwind else PopHigh((op - 0x80) * 256 + op2))
      else if op == 0xb1 then (if 0 < op2 < 16 then PopLow(op2) else Spare(code))
      else if op == 0xb3 then PopDFstmx(op2 / 16, op2 % 16)
      else if op == 0xc6 then PopWr(op2 / 16, op2 % 16)
      else if op == 0xc7 then (if 0 < op2 < 16 then PopWcgr(op2) else Spare(code))
      else if op == 0xc8 then PopD16(op2 / 16, op2 % 16)
      else PopD(op2 / 16, op2 % 16)
    else if 0x90 <= op < 0xa0 && op != 0x9d && op != 0x9f then VspFrom(op - 0x90)
    else if 0xa0 <= op < 0xa8 then PopRange(op - 0xa0, false)
    else if 0xa8 <= op < 0xb0 then PopRange(op - 0xa8, true)
    else if 0xb8 <= op < 0xc0 then PopD8Fstmx(op - 0xb8)
    else if 0xc0 <= op < 0xc6 then PopWr10(op - 0xc0)
    else if 0xd0 <= op < 0xd8 then PopD8(op - 0xd0)
    else Spare(code)
  }

  lemma {:induction false} UlebEndIsUleb(buf: seq<byte>, i: nat)
    requires UlebEnd(buf, i).Some?
    ensures var j := UlebEnd(buf, i).value;
      && i < j <= |buf| && buf[j - 1] < 0x80
      && forall k :: i <= k < j - 1 ==> buf[k] >= 0x80
    decreases |buf| - i
  {
    if buf[i] >= 0x80 {
      UlebEndIsUleb(buf, i + 1);
    }
  }

  /** The bytes are a table instruction that stands for the command. */
  ghost predicate InTable(code: seq<byte>, cmd: Command)
    requires |code| > 0
  {
    var i := InstructionOf(code);
    Valid(i) && Encode(i) == code && CommandOf(i) == cmd
  }

  lemma OneByteInTable(op: byte)
    requires !TwoBytes(op) && op != 0xb2 && op != 0xb0
    ensures InTable([op], Decode1(op))
  {
    if op < 0x80 {
      VspInTable(op);
    } else if op < 0xa0 {
      VspFromInTable(op);
    } else if op < 0xb0 {
      PopRangeInTable(op);
    } else if op < 0xc0 {
      FstmxInTable(op);
    } else {
      VectorInTable(op);
    }
  }

  lemma VspInTable(op: byte)
    requires op < 0x80
    ensures InTable([op], Decode1(op))
  {
    assert op % 64 == if op < 0x40 then op else op - 0x40;
  }

  lemma VspFromInTable(op: byte)
    requires 0x90 <= op < 0xa0
    ensures InTable([op], Decode1(op))
  {
    assert op % 16 == op - 0x90;
  }

  lemma FstmxInTable(op: byte)
    requires 0xb0 < op < 0xc0 && !TwoBytes(op) && op != 0xb2
    ensures InTable([op], Decode1(op))
  {
    assert op >= 0xb8 ==> op % 8 == op - 0xb8;
  }

  lemma VectorInTable(op: byte)
    requires 0xc0 <= op && !TwoBytes(op)
    ensures InTable([op], Decode1(op))
  {
    assert op < 0xc6 ==> op % 8 == op - 0xc0;
    assert 0xd0 <= op < 0xd8 ==> op % 8 == op - 0xd0;
  }

  lemma PopRangeInTable(op: byte)
    requires 0xa0 <= op < 0xb0
    ensures InTable([op], Decode1(op))
  {
    var n := if op < 0xa8 then op - 0xa0 else op - 0xa8;
    assert op % 8 == n && (op / 8 % 2 == 1 <==> op >= 0xa8);
  }

  lemma TwoBytesInTable(op: byte, op2: byte)
    requires TwoBytes(op)
    ensures InTable([op, op2], Decode2(op, op2))
  {
    if op < 0x90 {
      PopHighInTable(op, op2);
    } else if op == 0xb1 || op == 0xc7 {
      MaskedInTable(op, op2);
    } else {
      RangeInTable(op, op2);
    }
  }

  lemma PopHighInTable(op: byte, op2: byte)
    requires 0x80 <= op < 0x90
    ensures InTable([op, op2], Decode2(op, op2))
  {
    assert op % 16 == op - 0x80;
  }

  lemma MaskedInTable(op: byte, op2: byte)
    requires op == 0xb1 || op == 0xc7
    ensures InTable([op, op2], Decode2(op, op2))
  {
  }

  lemma RangeInTable(op: byte, op2: byte)
    requires op == 0xb3 || op == 0xc6 || op == 0xc8 || op == 0xc9
    ensures InTable([op, op2], Decode2(op, op2))
  {
    var q := op2 / 16;
    assert op2 == 16 * q + op2 % 16;
  }

  /** Conversely every position the decoder can read holds FINISH or a table instruction (its ULEB128 within 32 bits). */
  lemma EveryOpcodeIsInTable(buf: seq<byte>, i: nat)
    requires i < |buf| && DecodeAt(buf, i).Some? && buf[i] != 0xb0
    requires buf[i] == 0xb2 ==> DecodeAt(buf, i).value.1 - i <= 6
    ensures var j := DecodeAt(buf, i).value.1;
      var op := InstructionOf(buf[i..j]);
      Valid(op) && Encode(op) == buf[i..j] && CommandOf(op) == DecodeAt(buf, i).value.0
  {
    var j := DecodeAt(buf, i).value.1;
    var code := buf[i..j];
    if buf[i] == 0xb2 {
      UlebEndIsUleb(buf, i + 1);
      assert code[1..] == buf[i + 1..j];
      assert [code[0]] + code[1..] == code;
      WordScale(Payload(code[1..]));
    } else if TwoBytes(buf[i]) {
      assert code == [buf[i], buf[i + 1]];
      TwoBytesInTable(buf[i], buf[i + 1]);
    } else {
      assert code == [buf[i]];
      OneByteInTable(buf[i]);
    }
  }

  // ----- the table's effects -----

  /** Does the instruction pop core register r? */
  predicate Pops(op: Instruction, r: nat) {
    match op
    case PopHigh(mask) => 4 <= r < 16 && Bit(mask, r - 4)
    case PopRange(n, lr) => 4 <= r <= 4 + n || (lr && r == 14)
    case PopLow(mask) => r < 4 && Bit(mask, r)
    case _ => false
  }

  predicate PopsCore(op: Instruction) {
    op.PopHigh? || op.PopRange? || op.PopLow?
  }

  /** How many registers below r the instruction pops. */
  function PoppedBelow(op: Instruction, r: nat): nat {
    if r == 0 then 0 else PoppedBelow(op, r - 1) + if Pops(op, r - 1) then 1 else 0
  }

  lemma BitOfShifted(m: nat, r: nat)
    ensures Bit(16 * m, r) <==> r >= 4 && Bit(m, r - 4)
  {
    assert 16 * m / 2 == 8 * m && 8 * m / 2 == 4 * m && 4 * m / 2 == 2 * m && 2 * m / 2 == m;
    if r >= 1 { assert Bit(16 * m, r) == Bit(8 * m, r - 1); }
    if r >= 2 { assert Bit(8 * m, r - 1) == Bit(4 * m, r - 2); }
    if r >= 3 { assert Bit(4 * m, r - 2) == Bit(2 * m, r - 3); }
    if r >= 4 { assert Bit(2 * m, r - 3) == Bit(m, r - 4); }
  }

  lemma {:induction false} BitOfOnes(n: nat, r: nat)
    ensures Bit(Pow2(n) - 1, r) <==> r < n
    decreases r
  {
    if n == 0 {
      BitOfSmall(0, 0, r);
    } else if r > 0 {
      assert (Pow2(n) - 1) / 2 == Pow2(n - 1) - 1;
      BitOfOnes(n - 1, r - 1);
    }
  }

  /** A number below 2^n has no bit from n on. */
  lemma {:induction false} BitOfSmall(m: nat, n: nat, r: nat)
    requires m < Pow2(n) && n <= r
    ensures !Bit(m, r)
    decreases r
  {
    if r > 0 {
      BitOfSmall(m / 2, if n == 0 then 0 else n - 1, r - 1);
    }
  }

  lemma {:induction false} BitOfSum(m: nat, n: nat, r: nat)
    requires m < Pow2(n)
    ensures Bit(m + Pow2(n), r) <==> r == n || Bit(m, r)
    decreases n
  {
    if n == 0 {
      if r > 0 { BitOfSmall(0, 0, r - 1); }
    } else if r > 0 {
      assert (m + Pow2(n)) / 2 == m / 2 + Pow2(n - 1);
      BitOfSum(m / 2, n - 1, r - 1);
    }
  }

  lemma {:induction false} Pow2AtMost(n: nat, m: nat)
    requires n <= m
    ensures Pow2(n) <= Pow2(m)
  {
    if n < m {
      Pow2AtMost(n, m - 1);
    }
  }

  /** The mask handed to the pop command has exactly the table's registers. */
  lemma MaskMeansTable(op: Instruction, r: nat)
    requires Valid(op) && PopsCore(op) && r < 16
    ensures CommandOf(op).RegPop? && (Bit(CommandOf(op).mask, r) <==> Pops(op, r))
  {
    match op
    case PopHigh(mask) => BitOfShifted(mask, r);
    case PopLow(mask) =>
      assert Pow2(4) == 16;
      if r >= 4 { BitOfSmall(mask, 4, r); }
    case PopRange(n, lr) => RangeMask(n, lr, r);
  }

  lemma OnesMask(n: nat, r: nat)
    requires n < 8 && r < 16
    ensures Bit((Pow2(n + 1) - 1) * 16, r) <==> 4 <= r <= 4 + n
  {
    BitOfShifted(Pow2(n + 1) - 1, r);
    if r >= 4 { BitOfOnes(n + 1, r - 4); }
  }

  lemma OnesAreLow(n: nat)
    requires n < 8
    ensures (Pow2(n + 1) - 1) * 16 < Pow2(14) == 0x4000
  {
    Pow2AtMost(n + 1, 8);
    assert Pow2(7) == 128 && Pow2(8) == 256;
    Pow2Add(7, 7);
  }

  lemma RangeMask(n: nat, lr: bool, r: nat)
    requires n < 8 && r < 16
    ensures Bit((Pow2(n + 1) - 1) * 16 + if lr then 0x4000 else 0, r) <==> 4 <= r <= 4 + n || (lr && r == 14)
  {
    var low := (Pow2(n + 1) - 1) * 16;
    OnesMask(n, r);
    OnesAreLow(n);
    if lr {
      BitOfSum(low, 14, r);
    }
  }

  /** The n-th slot of the given size above start. */
  function Above(start: word32, size: nat, n: nat): word32 {
    if n == 0 then start else U32(Above(start, size, n - 1) + size)
  }

  lemma {:induction false} AboveIs(start: word32, size: nat, n: nat)
    ensures Above(start, size, n) == U32(start + size * n)
  {
    if n > 0 {
      AboveIs(start, size, n - 1);
      assert size * n == size * (n - 1) + size;
      U32Adds(start + size * (n - 1), size);
    }
  }

  /** Register r's location is the same in both. */
  predicate SameLoc(a: map<nat, word32>, b: map<nat, word32>, r: nat) {
    (r in a <==> r in b) && (r in a ==> a[r] == b[r])
  }

  /** If r is popped, it is in the slot its rank gives. */
  predicate InRankSlot(op: Instruction, loc: map<nat, word32>, r: nat, start: word32) {
    Pops(op, r) ==> r in loc && loc[r] == Above(start, 4, PoppedBelow(op, r))
  }

  /** If r is not among the popped of the first n registers, it is where it was. */
  predicate Kept(op: Instruction, before: map<nat, word32>, after: map<nat, word32>, r: nat, n: nat) {
    (r < n && Pops(op, r)) || SameLoc(before, after, r)
  }

  predicate MaskAgrees(op: Instruction, mask: nat, r: nat) {
    Bit(mask, r) <==> Pops(op, r)
  }

  /** The state after the pops among the first n registers. */
  lemma {:induction false} PopRegsEffect(op: Instruction, mask: nat, n: nat, st: State)
    requires n <= CORE_REGS
    requires forall r :: 0 <= r < n ==> MaskAgrees(op, mask, r)
    ensures var st' := PopRegs(mask, n, st);
      && st'.ip == st.ip
      && st'.cfa == Above(st.cfa, 4, PoppedBelow(op, n))
      && (forall r: nat :: r < n ==> InRankSlot(op, st'.loc, r, st.cfa))
      && (forall r: nat :: Kept(op, st.loc, st'.loc, r, n))
    decreases n
  {
    if n > 0 {
      PopRegsEffect(op, mask, n - 1, st);
      assert MaskAgrees(op, mask, n - 1);
      var mid, st' := PopRegs(mask, n - 1, st), PopRegs(mask, n, st);
      forall r: nat | r < n ensures InRankSlot(op, st'.loc, r, st.cfa) {
        assert r < n - 1 ==> InRankSlot(op, mid.loc, r, st.cfa);
      }
      forall r: nat ensures Kept(op, st.loc, st'.loc, r, n) {
        assert Kept(op, st.loc, mid.loc, r, n - 1);
      }
    }
  }

  /** If r is popped, it is in the word its rank gives, else where it was. */
  predicate CoreSlot(op: Instruction, before: map<nat, word32>, after: map<nat, word32>, r: nat, start: word32) {
    if r < CORE_REGS && Pops(op, r) then r in after && after[r] == U32(start + 4 * PoppedBelow(op, r))
    else SameLoc(before, after, r)
  }

  ghost predicate CoreRecorded(op: Instruction, before: map<nat, word32>, after: map<nat, word32>, start: word32) {
    forall r: nat :: CoreSlot(op, before, after, r, start)
  }

  lemma PopRegsRecords(op: Instruction, mask: nat, st: State)
    requires forall r :: 0 <= r < CORE_REGS ==> MaskAgrees(op, mask, r)
    ensures var st' := PopRegs(mask, CORE_REGS, st);
      && st'.ip == st.ip
      && st'.cfa == U32(st.cfa + 4 * PoppedBelow(op, CORE_REGS))
      && CoreRecorded(op, st.loc, st'.loc, st.cfa)
  {
    PopRegsEffect(op, mask, CORE_REGS, st);
    AboveIs(st.cfa, 4, PoppedBelow(op, CORE_REGS));
    var st' := PopRegs(mask, CORE_REGS, st);
    forall r: nat ensures CoreSlot(op, st.loc, st'.loc, r, st.cfa) {
      assert Kept(op, st.loc, st'.loc, r, CORE_REGS);
      if r < CORE_REGS {
        assert InRankSlot(op, st'.loc, r, st.cfa);
        AboveIs(st.cfa, 4, PoppedBelow(op, r));
      }
    }
  }

  /** Popping core registers, as the table says: ascending registers at ascending words. */
  lemma CorePopEffect(mem: Memory, op: Instruction, st: State)
    requires Valid(op) && PopsCore(op)
    ensures Apply(mem, st, CommandOf(op)).Some?
    ensures var st' := Apply(mem, st, CommandOf(op)).value;
      && st'.ip == st.ip
      && CoreRecorded(op, st.loc, st'.loc, st.cfa)
      && st'.cfa == if Pops(op, 13) then Get(mem, st'.loc, 13, U32(st.cfa + 4 * PoppedBelow(op, CORE_REGS)))
                    else U32(st.cfa + 4 * PoppedBelow(op, CORE_REGS))
  {
    MaskMeansTable(op, 13);
    var mask := CommandOf(op).mask;
    forall r: nat | r < CORE_REGS ensures MaskAgrees(op, mask, r) {
      MaskMeansTable(op, r);
    }
    PopRegsRecords(op, mask, st);
    assert Apply(mem, st, CommandOf(op)).value.loc == PopRegs(mask, CORE_REGS, st).loc;
  }

  /** The first and last VFP double register an instruction pops, by the table's numbering. */
  predicate PopsVfp(op: Instruction) {
    op.PopDFstmx? || op.PopD8Fstmx? || op.PopD? || op.PopD8? || op.PopD16?
  }

  function FirstD(op: Instruction): nat
    requires PopsVfp(op)
  {
    match op
    case PopDFstmx(s, _) => s
    case PopD(s, _) => s
    case PopD16(s, _) => 16 + s
    case _ => 8
  }

  function CountD(op: Instruction): nat
    requires PopsVfp(op)
  {
    match op
    case PopDFstmx(_, c) => c
    case PopD(_, c) => c
    case PopD16(_, c) => c
    case PopD8Fstmx(c) => c
    case PopD8(c) => c
  }

  /** Register r is in the double-word slot its distance from register base gives. */
  predicate InDoubleSlot(loc: map<nat, word32>, r: nat, base: nat, start: word32) {
    r >= base && r in loc && loc[r] == U32(start + 8 * (r - base))
  }

  predicate AboveSlot(loc: map<nat, word32>, r: nat, base: nat, start: word32) {
    r >= base && r in loc && loc[r] == Above(start, 8, r - base)
  }

  lemma {:induction false} PopVfpEffect(i: nat, last: nat, st: State, start: word32, first: nat)
    requires first <= i <= last + 1 && st.cfa == Above(start, 8, i - first)
    ensures var st', base := PopVfp(i, last, st), S0 + first;
      && st'.ip == st.ip
      && st'.cfa == Above(start, 8, last + 1 - first)
      && (forall r: nat :: S0 + i <= r <= S0 + last ==> AboveSlot(st'.loc, r, base, start))
      && (forall r: nat :: !(S0 + i <= r <= S0 + last) ==> SameLoc(st.loc, st'.loc, r))
    decreases last + 1 - i
  {
    if i <= last {
      var next := PopSlot(st, S0 + i, 8);
      PopVfpEffect(i + 1, last, next, start, first);
      var st' := PopVfp(i + 1, last, next);
      assert SameLoc(next.loc, st'.loc, S0 + i);
      assert AboveSlot(st'.loc, S0 + i, S0 + first, start);
      forall r: nat | !(S0 + i <= r <= S0 + last) ensures SameLoc(st.loc, st'.loc, r) {
        assert SameLoc(next.loc, st'.loc, r);
      }
    }
  }

  /** Registers base to last got consecutive double-word slots from start; all others are as before. */
  ghost predicate VfpRecorded(before: map<nat, word32>, after: map<nat, word32>, base: nat, last: nat, start: word32) {
    && (forall r: nat :: base <= r <= last ==> InDoubleSlot(after, r, base, start))
    && (forall r: nat :: !(base <= r <= last) ==> SameLoc(before, after, r))
  }

  lemma PopVfpSlots(first: nat, last: nat, st: State)
    requires first <= last
    ensures var st' := PopVfp(first, last, st);
      && st'.ip == st.ip
      && st'.cfa == U32(st.cfa + 8 * (last + 1 - first))
      && VfpRecorded(st.loc, st'.loc, S0 + first, S0 + last, st.cfa)
  {
    PopVfpEffect(first, last, st, st.cfa, first);
    AboveIs(st.cfa, 8, last + 1 - first);
    var st', base := PopVfp(first, last, st), S0 + first;
    forall r: nat | base <= r <= S0 + last
      ensures InDoubleSlot(st'.loc, r, base, st.cfa)
    {
      assert AboveSlot(st'.loc, r, base, st.cfa);
      AboveIs(st.cfa, 8, r - base);
    }
  }

  /** The register number the slots of a VFP pop are recorded from: 0xc8 misses its own by sixteen. */
  function RecordedFrom(op: Instruction): nat
    requires Valid(op) && PopsVfp(op)
  {
    if op.PopD16? then FirstD(op) - 16 else FirstD(op)
  }

  /**
   Popping VFP registers.  The registers recorded are the table's, except that
   opcode 0xc8 records its slots sixteen registers too low and none of its own.
   */
  lemma VfpPopEffect(mem: Memory, op: Instruction, st: State)
    requires Valid(op) && PopsVfp(op)
    ensures Apply(mem, st, CommandOf(op)).Some?
    ensures var st' := Apply(mem, st, CommandOf(op)).value;
      && st'.ip == st.ip
      && st'.cfa == U32(st.cfa + 8 * (CountD(op) + 1) + if op.PopDFstmx? || op.PopD8Fstmx? then 4 else 0)
      && VfpRecorded(st.loc, st'.loc, S0 + RecordedFrom(op), S0 + (RecordedFrom(op) + CountD(op)), st.cfa)
    ensures op.PopD16? ==> forall r: nat :: S0 + FirstD(op) <= r <= S0 + FirstD(op) + CountD(op) ==>
      SameLoc(st.loc, Apply(mem, st, CommandOf(op)).value.loc, r)
  {
    var first, count := RecordedFrom(op), CountD(op);
    assert CommandOf(op) == VfpPop(first, count, !(op.PopDFstmx? || op.PopD8Fstmx?));
    PopVfpSlots(first, first + count, st);
    U32Adds(st.cfa + 8 * (count + 1), 4);
    assert Apply(mem, st, CommandOf(op)).value.loc == PopVfp(first, first + count, st).loc;
  }

  /** The instructions that pop nothing into a register, as the table says. */
  lemma OtherEffects(mem: Memory, op: Instruction, st: State)
    requires Valid(op) && !PopsCore(op) && !PopsVfp(op)
    ensures Apply(mem, st, CommandOf(op)) ==
      match op
      case VspAdd(x) => Some(st.(cfa := U32(st.cfa + 4 * x + 4)))
      case VspSub(x) => Some(st.(cfa := U32(st.cfa - 4 * x - 4)))
      case VspAddUleb(digits) => Some(st.(cfa := U32(st.cfa + 0x204 + 4 * Payload(digits))))
      case VspFrom(r) =>
        var loc := if r in st.loc then st.loc[13 := st.loc[r]] else st.loc - {13};
        Some(st.(loc := loc, cfa := Get(mem, st.loc, r, st.cfa)))
      case PopWr10(n) => Some(st.(cfa := U32(st.cfa + 8 * (n + 1))))
      case PopWr(_, c) => Some(st.(cfa := U32(st.cfa + 8 * (c + 1))))
      case PopWcgr(mask) => Some(st.(cfa := U32(st.cfa + 4 * BitCount(mask, 4))))
      case _ => None
  {
    match op
    case VspAddUleb(digits) => WordAddend(st.cfa, 0x204 + 4 * Payload(digits));
    case VspFrom(r) =>
    case _ =>
  }

  lemma WordAddend(x: word32, v: nat)
    ensures U32(x + U32(v)) == U32(x + v)
  {
    U32Wraps(x + v, -(v / TWO_32));
    assert U32(v) == v - TWO_32 * (v / TWO_32);
  }

  /** FINISH: r15 shares r14's place if it has none of its own, and ip is the word found there, if one is. */
  lemma FinishEffect(mem: Memory, st: State)
    ensures Apply(mem, st, Finish).Some?
    ensures var st' := Apply(mem, st, Finish).value;
      && st'.cfa == st.cfa
      && st'.loc == (if 15 !in st.loc && 14 in st.loc then st.loc[15 := st.loc[14]] else st.loc)
      && st'.ip == if 15 in st'.loc && st'.loc[15] in mem then mem[st'.loc[15]] else st.ip
  {
  }
}
