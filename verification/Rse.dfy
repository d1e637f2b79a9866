/**
 The IA-64 register stack engine's address arithmetic.  The backing store is a
 run of 8-byte slots in which every 64th slot holds an RNAT collection instead
 of a register.
 */
module Rse {
  import opened Machine

  const GROUP: int := 64      // slots from one RNAT slot to the next

  function SlotNum(addr: word): (n: int)
    ensures 0 <= n < GROUP
  {
    addr / 8 % 64
  }

  predicate IsRnatSlot(addr: word) {
    SlotNum(addr) == 63
  }

  /** Sets bits 3 to 8 of the address. */
  function RnatAddr(addr: word): word {
    addr / 512 * 512 + 504 + addr % 8
  }

  function NumRegs(bspstore: word, bsp: word): word {
    var slots := U64(bsp - bspstore) / 8;
    U64(slots - (SlotNum(bspstore) + slots) / 64)
  }

  /** The slots to move by, as the C code computes it in a signed long. */
  function SlotDelta(addr: word, numRegs: int): int {
    var delta := SlotNum(addr) + numRegs;
    var delta' := if numRegs < 0 then delta - 62 else delta;
    numRegs + CDiv(delta', 63)
  }

  /** No signed intermediate of the C expression leaves the range of a long. */
  predicate LongFits(addr: word, numRegs: int) {
    && -TWO_63 <= SlotNum(addr) + numRegs - 62 && SlotNum(addr) + numRegs < TWO_63
    && -TWO_63 <= SlotDelta(addr, numRegs) * 8 < TWO_63
  }

  function SkipRegs(addr: word, numRegs: int): word
    requires LongFits(addr, numRegs)
  {
    U64(addr + SlotDelta(addr, numRegs) * 8)
  }

  // ----- the reference view: register slots have ranks -----

  /** The register slots below slot s, counted from slot 0 (negative below it). */
  function Rank(s: int): int {
    s - s / 64
  }

  /** The slot that holds the register of rank r. */
  function SlotOf(r: int): int {
    r + r / 63
  }

  lemma RankSlot(r: int)
    ensures Rank(SlotOf(r)) == r && SlotOf(r) % 64 != 63
  {
    var g, p := r / 63, r % 63;
    assert r == 63 * g + p;
    assert SlotOf(r) == 64 * g + p;
    assert SlotOf(r) / 64 == g;
  }

  /** The truncating division with its 0x3e correction is a floor division. */
  lemma SlotDeltaIsFloor(addr: word, n: int)
    ensures SlotDelta(addr, n) == n + (SlotNum(addr) + n) / 63
  {
    var p := SlotNum(addr);
    var m := p + n;
    if n < 0 && m < 62 {
      var q := m / 63;
      assert 63 * q <= m < 63 * q + 63;
      assert 63 * (-q) <= -(m - 62) < 63 * (-q) + 63;
      assert (-(m - 62)) / 63 == -q;
    }
  }

  /** The address of the register of rank r; low is its offset inside the slot. */
  function RegisterAddr(r: int, low: int): word {
    U64(8 * SlotOf(r) + low)
  }

  /** Skipping n registers is adding n to the rank, also across a wrap of the address. */
  lemma SkipIsRankShift(addr: word, n: int)
    requires LongFits(addr, n)
    ensures SkipRegs(addr, n) == RegisterAddr(Rank(addr / 8) + n, addr % 8)
  {
    SlotDeltaIsFloor(addr, n);
    var s := addr / 8;
    var g, p := s / 64, s % 64;
    assert Rank(s) == 63 * g + p;
    var m := p + n;
    assert (63 * g + m) / 63 == g + m / 63;
    assert SlotOf(Rank(s) + n) == s + n + m / 63;
  }

  const SLOTS: int := 0x2000_0000_0000_0000         // slots in the address space
  const RANKS: int := 63 * 0x80_0000_0000_0000      // register slots among them

  lemma WrapDropsOut(v: int, q: int)
    ensures U64(v - TWO_64 * q) == U64(v)
  {
    assert (v - TWO_64 * q) / TWO_64 == v / TWO_64 - q;
  }

  /** The address space holds whole groups, so a wrap moves ranks by whole groups. */
  lemma WrapShiftsRank(s: int, q: int)
    ensures Rank(s - SLOTS * q) == Rank(s) - RANKS * q
    ensures SlotOf(s - RANKS * q) == SlotOf(s) - SLOTS * q
  {
    var t := 0x80_0000_0000_0000 * q;
    assert (s - 64 * t) / 64 == s / 64 - t;
    assert (s - 63 * t) / 63 == s / 63 - t;
  }

  lemma SlotOfAddr(r: int, low: int) returns (q: int)
    requires 0 <= low < 8
    ensures RegisterAddr(r, low) / 8 == SlotOf(r) - SLOTS * q
    ensures RegisterAddr(r, low) % 8 == low
  {
    var v := 8 * SlotOf(r) + low;
    q := v / TWO_64;
    assert RegisterAddr(r, low) == v - TWO_64 * q;
  }

  lemma RankOfAddr(r: int, low: int) returns (q: int)
    requires 0 <= low < 8
    ensures Rank(RegisterAddr(r, low) / 8) == r - RANKS * q
    ensures RegisterAddr(r, low) % 8 == low
  {
    q := SlotOfAddr(r, low);
    RankSlot(r);
    WrapShiftsRank(SlotOf(r), q);
  }

  lemma AddrOfWrappedRank(r: int, low: int, q: int)
    ensures RegisterAddr(r - RANKS * q, low) == RegisterAddr(r, low)
  {
    WrapShiftsRank(r, q);
    WrapDropsOut(8 * SlotOf(r) + low, q);
  }

  lemma GroupsDropOut(s: int, t: int)
    ensures (s - 64 * t) % 64 == s % 64
  {
  }

  lemma SkipNeverRnat(a: word, n: int)
    requires LongFits(a, n)
    ensures !IsRnatSlot(SkipRegs(a, n))
  {
    var r := Rank(a / 8) + n;
    SkipIsRankShift(a, n);
    var q := SlotOfAddr(r, a % 8);
    RankSlot(r);
    GroupsDropOut(SlotOf(r), 0x80_0000_0000_0000 * q);
  }

  lemma RankShiftsAdd(b: word, r: int, low: int, n: int)
    requires 0 <= low < 8 && b == RegisterAddr(r, low)
    ensures RegisterAddr(Rank(b / 8) + n, b % 8) == RegisterAddr(r + n, low)
  {
    var q := RankOfAddr(r, low);
    AddrOfWrappedRank(r + n, low, q);
  }

  /** Skipping is an action of the integers on backing-store addresses. */
  lemma SkipAdds(a: word, m: int, n: int)
    requires LongFits(a, m) && LongFits(SkipRegs(a, m), n) && LongFits(a, m + n)
    ensures SkipRegs(SkipRegs(a, m), n) == SkipRegs(a, m + n)
  {
    SkipIsRankShift(a, m);
    SkipIsRankShift(SkipRegs(a, m), n);
    SkipIsRankShift(a, m + n);
    RankShiftsAdd(SkipRegs(a, m), Rank(a / 8) + m, a % 8, n);
  }

  /** A skip of zero stands still on a register slot and steps over an RNAT slot. */
  lemma SkipZero(a: word)
    requires LongFits(a, 0)
    ensures SkipRegs(a, 0) == if IsRnatSlot(a) then U64(a + 8) else a
  {
    SlotDeltaIsFloor(a, 0);
    assert SlotNum(a) / 63 == if IsRnatSlot(a) then 1 else 0;
  }

  lemma SkipUndo(a: word, n: int)
    requires LongFits(a, n) && LongFits(SkipRegs(a, n), -n) && LongFits(a, 0)
    ensures SkipRegs(SkipRegs(a, n), -n) == if IsRnatSlot(a) then U64(a + 8) else a
  {
    SkipAdds(a, n, -n);
    SkipZero(a);
  }

  // ----- counting -----

  /** The register (non-RNAT) slots in [lo, hi). */
  ghost function RegisterSlots(lo: int, hi: int): (r: nat)
    requires lo <= hi
    decreases hi - lo
  {
    if lo == hi then 0
    else RegisterSlots(lo, hi - 1) + (if (hi - 1) % 64 == 63 then 0 else 1)
  }

  lemma {:induction false} RankCounts(lo: int, hi: int)
    requires lo <= hi
    ensures RegisterSlots(lo, hi) == Rank(hi) - Rank(lo)
    decreases hi - lo
  {
    if lo < hi {
      RankCounts(lo, hi - 1);
    }
  }

  lemma NumRegsIsRankDifference(a: word, b: word)
    requires a % 8 == b % 8 && a <= b
    ensures NumRegs(a, b) == Rank(b / 8) - Rank(a / 8)
  {
    var slots := b / 8 - a / 8;
    assert b - a == 8 * slots;
    GroupsAdd(a / 8, slots);
    GroupsBound(a / 8 % 64, slots);
    SmallStays(b - a);
    SmallStays(slots - (a / 8 % 64 + slots) / 64);
  }

  lemma SmallStays(x: int)
    requires 0 <= x < TWO_64
    ensures U64(x) == x
  {
  }

  lemma GroupsBound(p: int, slots: int)
    requires 0 <= p < 64 && slots >= 0
    ensures 0 <= slots - (p + slots) / 64
  {
  }

  lemma GroupsAdd(s: int, slots: int)
    ensures (s + slots) / 64 == s / 64 + (s % 64 + slots) / 64
  {
    GroupOf(s + slots, s / 64 + (s % 64 + slots) / 64);
  }

  lemma GroupOf(s: int, g: int)
    requires 0 <= s - 64 * g < 64
    ensures s / 64 == g
  {
  }

  /** The dirty partition's size is exactly its number of register slots. */
  lemma NumRegsCounts(a: word, b: word)
    requires a % 8 == 0 && b % 8 == 0 && a <= b
    ensures NumRegs(a, b) == RegisterSlots(a / 8, b / 8)
  {
    NumRegsIsRankDifference(a, b);
    RankCounts(a / 8, b / 8);
  }

  lemma NumRegsAdds(a: word, b: word, c: word)
    requires a % 8 == 0 && b % 8 == 0 && c % 8 == 0 && a <= b <= c
    ensures NumRegs(a, c) == NumRegs(a, b) + NumRegs(b, c)
  {
    NumRegsIsRankDifference(a, b);
    NumRegsIsRankDifference(b, c);
    NumRegsIsRankDifference(a, c);
  }

  lemma SlotInGroup(a: word, d: int, g: int, k: int)
    requires 0 <= k < 64 && SlotNum(a) + d == 64 * g + k
    ensures SlotNum(U64(a + d * 8)) == k
  {
    var v := a + d * 8;
    var q := v / TWO_64;
    assert U64(v) == v - TWO_64 * q;
    assert U64(v) / 8 == a / 8 + d - 0x2000_0000_0000_0000 * q;
    var h := a / 8 / 64;
    assert U64(v) / 8 == 64 * (h + g - 0x80_0000_0000_0000 * q) + k;
  }

  /** A skip moves by n slots plus one for each group boundary it crosses. */
  lemma SkipCrosses(a: word, n: int) returns (g: int)
    requires LongFits(a, n)
    ensures SlotDelta(a, n) == n + g
    ensures 0 <= SlotNum(a) + n - 63 * g < 63
    ensures SlotNum(SkipRegs(a, n)) == SlotNum(a) + n - 63 * g
  {
    SlotDeltaIsFloor(a, n);
    g := (SlotNum(a) + n) / 63;
    SlotInGroup(a, n + g, g, SlotNum(a) + n - 63 * g);
  }

  lemma Difference(a: word, d: int)
    requires 0 <= d < 0x1000_0000_0000_0000
    ensures U64(U64(a + d * 8) - a) / 8 == d
  {
    var q := (a + d * 8) / TWO_64;
    assert U64(a + d * 8) == a + d * 8 - TWO_64 * q;
    WrapDropsOut(d * 8, q);
  }

  lemma DifferenceBack(a: word, d: int)
    requires 0 <= d < 0x2000_0000_0000_0000
    ensures U64(a - U64(a - d * 8)) / 8 == d
  {
    var q := (a - d * 8) / TWO_64;
    assert U64(a - d * 8) == a - d * 8 - TWO_64 * q;
    WrapDropsOut(d * 8, -q);
  }

  /** The two directions of "the inverse of the above", wrap-around included. */
  lemma NumRegsUndoesSkip(a: word, n: nat)
    requires LongFits(a, n)
    ensures NumRegs(a, SkipRegs(a, n)) == n
  {
    var g := SkipCrosses(a, n);
    Difference(a, n + g);
    GroupOf(SlotNum(a) + (n + g), g);
    NumRegsIs(a, SkipRegs(a, n), n + g, g);
  }

  lemma NumRegsIs(a: word, b: word, slots: int, g: int)
    requires U64(b - a) / 8 == slots && (SlotNum(a) + slots) / 64 == g && 0 <= slots - g < TWO_64
    ensures NumRegs(a, b) == slots - g
  {
  }

  lemma NumRegsUndoesNegativeSkip(a: word, n: int)
    requires n < 0 && LongFits(a, n)
    ensures NumRegs(SkipRegs(a, n), a) == -n
  {
    var g := SkipCrosses(a, n);
    DifferenceBack(a, -(n + g));
    GroupOf(SlotNum(SkipRegs(a, n)) - (n + g), -g);
    NumRegsIs(SkipRegs(a, n), a, -(n + g), -g);
  }

  /** RnatAddr names the first RNAT slot at or above the given slot. */
  lemma RnatAddrIsNextRnat(addr: word, b: word)
    requires b % 8 == addr % 8
    ensures IsRnatSlot(RnatAddr(addr)) && RnatAddr(addr) == addr + 8 * (63 - SlotNum(addr))
    ensures addr <= b < RnatAddr(addr) ==> !IsRnatSlot(b)
  {
    var g, p := addr / 512, addr / 8 % 64;
    assert addr == 512 * g + 8 * p + addr % 8;
    assert RnatAddr(addr) / 8 == 64 * g + 63;
    if addr <= b < RnatAddr(addr) {
      assert 64 * g + p <= b / 8 < 64 * g + 63;
    }
  }
}
