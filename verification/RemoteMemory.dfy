/**
 Reading another process's memory: its words arrive in the host's byte order,
 and numbers wider than a byte are put together in the target's.
 */
module RemoteMemory {
  import opened Machine
  import opened Bits

  const WORD_SIZE: int := 8

  const BYTES_1: nat := 1
  const BYTES_2: nat := 2
  const BYTES_4: nat := 4
  const BYTES_8: nat := 8

  datatype AddrSize = Four | Eight

  /** The target: its readable bytes, both byte orders and the size of an address. */
  datatype Space = Space(bytes: map<word, byte>, hostBig: bool, targetBig: bool, addrSize: AddrSize)

  // ----- bytes and numbers -----

  function LittleEndian(bs: seq<byte>): nat {
    if bs == [] then 0 else bs[0] + 0x100 * LittleEndian(bs[1..])
  }

  function BigEndian(bs: seq<byte>): nat {
    if bs == [] then 0 else BigEndian(bs[..|bs| - 1]) * 0x100 + bs[|bs| - 1]
  }

  function Composed(big: bool, bs: seq<byte>): nat {
    if big then BigEndian(bs) else LittleEndian(bs)
  }

  /** n bytes from a on; what cannot be read counts as 0. */
  function BytesAt(s: Space, a: int, n: nat): (bs: seq<byte>)
    ensures |bs| == n
    ensures forall i :: 0 <= i < n ==> bs[i] == ByteAt(s, a + i)
  {
    if n == 0 then [] else BytesAt(s, a, n - 1) + [ByteAt(s, a + (n - 1))]
  }

  function ByteAt(s: Space, a: int): byte {
    if U64(a) in s.bytes then s.bytes[U64(a)] else 0
  }

  /** The first address of the word that holds a. */
  function Aligned(a: word): word {
    a / WORD_SIZE * WORD_SIZE
  }

  /** Memory is read by whole words. */
  predicate WordReadable(s: Space, aligned: word) {
    forall i :: aligned <= i < aligned + WORD_SIZE ==> i in s.bytes
  }

  predicate Readable(s: Space, a: int) {
    WordReadable(s, Aligned(U64(a)))
  }

  predicate AllReadable(s: Space, a: int, n: nat) {
    n > 0 ==> AllReadable(s, a, n - 1) && Readable(s, a + (n - 1))
  }

  /** The access_mem callback: the word at an aligned address, as the host holds it. */
  function AccessMem(s: Space, aligned: word): Option<nat>
  {
    if WordReadable(s, aligned) then Some(Composed(s.hostBig, BytesAt(s, aligned, WORD_SIZE))) else None
  }

  // ----- digits of a number in base 256 -----

  lemma Distribute(a: int, b: int, q: int, u: int)
    ensures a * (b * q + u) == a * b * q + a * u
  {
    assert a * (b * q) == a * b * q;
  }

  lemma DivDiv(x: nat, a: nat, b: nat)
    requires a > 0 && b > 0
    ensures a * b > 0 && x / (a * b) == x / a / b
  {
    var q, u, v := x / a / b, x / a % b, x % a;
    Distribute(a, b, q, u);
    assert a * u <= a * (b - 1);
    QuotientUnique(x, a * b, q, a * u + v);
  }

  lemma QuotientUnique(x: int, m: int, q: int, r: int)
    requires m > 0 && x == m * q + r && 0 <= r < m
    ensures x / m == q
  {
    ModUnique(x, m, q, r);
    assert m * (x / m) == m * q;
  }

  lemma ByteShift(k: nat)
    ensures Pow2(8 * (k + 1)) == 0x100 * Pow2(8 * k)
  {
    var n := 8 * k;
    assert Pow2(n + 1) == 2 * Pow2(n);
    assert Pow2(n + 2) == 4 * Pow2(n);
    assert Pow2(n + 4) == 16 * Pow2(n);
    assert Pow2(n + 6) == 64 * Pow2(n);
    assert Pow2(n + 8) == 256 * Pow2(n);
  }

  lemma {:induction false} LittleDigit(bs: seq<byte>, k: nat)
    requires k < |bs|
    ensures LittleEndian(bs) / Pow2(8 * k) % 0x100 == bs[k]
  {
    if k > 0 {
      LittleDigit(bs[1..], k - 1);
      ByteShift(k - 1);
      QuotientUnique(LittleEndian(bs), 0x100, LittleEndian(bs[1..]), bs[0]);
      DivDiv(LittleEndian(bs), 0x100, Pow2(8 * (k - 1)));
    }
  }

  lemma {:induction false} BigDigit(bs: seq<byte>, k: nat)
    requires k < |bs|
    ensures BigEndian(bs) / Pow2(8 * k) % 0x100 == bs[|bs| - 1 - k]
  {
    if k > 0 {
      BigDigit(bs[..|bs| - 1], k - 1);
      ByteShift(k - 1);
      QuotientUnique(BigEndian(bs), 0x100, BigEndian(bs[..|bs| - 1]), bs[|bs| - 1]);
      DivDiv(BigEndian(bs), 0x100, Pow2(8 * (k - 1)));
    }
  }

  // ----- putting halves together -----

  lemma ShlByte(a: nat, k: nat)
    ensures Shl(a, 8 * (k + 1)) == 0x100 * Shl(a, 8 * k)
    ensures Pow2(8 * (k + 1)) == 0x100 * Pow2(8 * k)
  {
    ByteShift(k);
    assert a * (0x100 * Pow2(8 * k)) == 0x100 * (a * Pow2(8 * k));
  }

  lemma {:induction false} LittleConcat(x: seq<byte>, y: seq<byte>)
    ensures LittleEndian(x + y) == Shl(LittleEndian(y), 8 * |x|) + LittleEndian(x)
    ensures LittleEndian(x) < Pow2(8 * |x|)
  {
    if x == [] {
      assert x + y == y;
    } else {
      LittleConcat(x[1..], y);
      ShlByte(LittleEndian(y), |x| - 1);
      assert (x + y)[1..] == x[1..] + y;
    }
  }

  lemma {:induction false} BigConcat(x: seq<byte>, y: seq<byte>)
    ensures BigEndian(x + y) == Shl(BigEndian(x), 8 * |y|) + BigEndian(y)
    ensures BigEndian(y) < Pow2(8 * |y|)
  {
    if y == [] {
      assert x + y == x;
    } else {
      BigConcat(x, y[..|y| - 1]);
      ShlByte(BigEndian(x), |y| - 1);
      assert (x + y)[..|x + y| - 1] == x + y[..|y| - 1];
    }
  }

  /** Two numbers read in turn make one of twice the width, high half first or last as the target has it. */
  lemma ComposeHalves(big: bool, x: seq<byte>, y: seq<byte>)
    requires |x| == |y|
    ensures var high, low := if big then Composed(big, x) else Composed(big, y), if big then Composed(big, y) else Composed(big, x);
      Or(Shl(high, 8 * |x|), low) == Composed(big, x + y)
  {
    if big {
      BigConcat(x, y);
      OrDisjoint(BigEndian(x), BigEndian(y), 8 * |x|);
    } else {
      LittleConcat(x, y);
      OrDisjoint(LittleEndian(y), LittleEndian(x), 8 * |x|);
    }
  }

  // ----- what a read of n bytes gives -----

  /** The number at a, in the target's byte order. */
  function NumberAt(s: Space, a: int, n: nat): Option<nat> {
    if AllReadable(s, a, n) then Some(Composed(s.targetBig, BytesAt(s, a, n))) else None
  }

  /** Of four bytes the target puts the first highest or lowest. */
  lemma OrderOfFour(s: Space, a: word, b0: int, b1: int, b2: int, b3: int)
    requires AllReadable(s, a, BYTES_4)
    requires b0 == ByteAt(s, a) && b1 == ByteAt(s, a + 1) && b2 == ByteAt(s, a + 2) && b3 == ByteAt(s, a + 3)
    ensures NumberAt(s, a, BYTES_4) == Some(
      if s.targetBig then b0 * 0x100_0000 + b1 * 0x1_0000 + b2 * 0x100 + b3
      else b3 * 0x100_0000 + b2 * 0x1_0000 + b1 * 0x100 + b0)
  {
    BigOfFour(BytesAt(s, a, BYTES_4), b0, b1, b2, b3);
    LittleOfFour(BytesAt(s, a, BYTES_4), b0, b1, b2, b3);
  }

  lemma BigOfFour(bs: seq<byte>, b0: int, b1: int, b2: int, b3: int)
    requires |bs| == 4 && bs[0] == b0 && bs[1] == b1 && bs[2] == b2 && bs[3] == b3
    ensures BigEndian(bs) == b0 * 0x100_0000 + b1 * 0x1_0000 + b2 * 0x100 + b3
  {
    var three := bs[..3];
    var two := three[..2];
    var one := two[..1];
    assert BigEndian(one[..0]) == 0;
    assert BigEndian(one) == b0 && BigEndian(two) == b0 * 0x100 + b1;
  }

  lemma LittleOfFour(bs: seq<byte>, b0: int, b1: int, b2: int, b3: int)
    requires |bs| == 4 && bs[0] == b0 && bs[1] == b1 && bs[2] == b2 && bs[3] == b3
    ensures LittleEndian(bs) == b3 * 0x100_0000 + b2 * 0x1_0000 + b1 * 0x100 + b0
  {
    var three := bs[1..];
    var two := three[1..];
    var one := two[1..];
    assert LittleEndian(one[1..]) == 0;
    assert LittleEndian(one) == b3 && LittleEndian(two) == b2 + 0x100 * b3;
  }

  /** How far a read of n bytes advances: past all of them, or past the first that cannot be read. */
  function Advance(s: Space, a: int, n: nat): nat {
    if n == 0 then 0 else if AllReadable(s, a, n - 1) then n else Advance(s, a, n - 1)
  }

  lemma {:induction false} AddressWraps(s: Space, a: int, n: nat)
    ensures AllReadable(s, U64(a), n) == AllReadable(s, a, n)
    ensures BytesAt(s, U64(a), n) == BytesAt(s, a, n)
    ensures Advance(s, U64(a), n) == Advance(s, a, n)
  {
    if n > 0 {
      AddressWraps(s, a, n - 1);
      U64Adds(a, n - 1);
    }
  }

  lemma {:induction false} Split(s: Space, a: int, m: nat, n: nat)
    ensures AllReadable(s, a, m + n) == (AllReadable(s, a, m) && AllReadable(s, a + m, n))
    ensures BytesAt(s, a, m + n) == BytesAt(s, a, m) + BytesAt(s, a + m, n)
    ensures Advance(s, a, m + n) == if AllReadable(s, a, m) then m + Advance(s, a + m, n) else Advance(s, a, m)
  {
    if n > 0 {
      Split(s, a, m, n - 1);
      assert a + (m + n - 1) == a + m + (n - 1);
    }
  }

  /** Two numbers of n bytes read in turn, put together in the target's order. */
  function PutTogether(s: Space, n: nat, v0: nat, v1: nat): nat {
    if s.targetBig then Or(Shl(v0, 8 * n), v1) else Or(Shl(v1, 8 * n), v0)
  }

  /** A number of 2n bytes is its two halves, read one after the other. */
  lemma ReadInHalves(s: Space, a: word, n: nat)
    ensures NumberAt(s, a, n + n) ==
      (if NumberAt(s, a, n).None? || NumberAt(s, U64(a + n), n).None? then None
       else Some(PutTogether(s, n, NumberAt(s, a, n).value, NumberAt(s, U64(a + n), n).value)))
  {
    Split(s, a, n, n);
    AddressWraps(s, a + n, n);
    ComposeHalves(s.targetBig, BytesAt(s, a, n), BytesAt(s, a + n, n));
  }

  lemma AdvanceInHalves(s: Space, a: word, n: nat)
    ensures NumberAt(s, a, n).None? ==> Advance(s, a, n + n) == Advance(s, a, n)
    ensures NumberAt(s, a, n).Some? ==> Advance(s, a, n + n) == n + Advance(s, U64(a + n), n) && Advance(s, a, n) == n
  {
    Split(s, a, n, n);
    AddressWraps(s, a + n, n);
    if AllReadable(s, a, n) {
      AdvanceAll(s, a, n);
    }
  }

  lemma AdvanceAll(s: Space, a: int, n: nat)
    requires AllReadable(s, a, n)
    ensures Advance(s, a, n) == n
  {
  }

  function ReadByte(s: Space, a: word): Option<byte> {
    if Readable(s, a) then Some(ByteAt(s, a)) else None
  }

  /** Shifting the host's word down to an addressed byte finds that byte, in either host order. */
  lemma ByteOfWord(s: Space, a: word)
    ensures match AccessMem(s, Aligned(a))
      case None => ReadByte(s, a) == None
      case Some(val) => ReadByte(s, a) == Some(ByteIn(s.hostBig, val, a - Aligned(a)))
  {
    var off: nat := a - Aligned(a);
    WordStays(a);
    var bs := BytesAt(s, Aligned(a), WORD_SIZE);
    assert bs[off] == ByteAt(s, Aligned(a) + off);
    ByteOfNumber(s.hostBig, bs, off);
  }

  lemma ByteOfNumber(big: bool, bs: seq<byte>, off: nat)
    requires |bs| == WORD_SIZE && off < WORD_SIZE
    ensures ByteIn(big, Composed(big, bs), off) == bs[off]
  {
    if big {
      BigDigit(bs, WORD_SIZE - 1 - off);
    } else {
      LittleDigit(bs, off);
    }
  }

  /** The host's word shifted so that the byte at an offset comes lowest, and cut down to it. */
  function ByteIn(hostBig: bool, val: nat, off: nat): byte
    requires off < WORD_SIZE
  {
    var k: nat := if hostBig then WORD_SIZE - 1 - off else off;
    val / Pow2(8 * k) % 0x100
  }

  // ----- the readers -----

  class Reader {
    var addr: word

    constructor (a: word)
      ensures addr == a
    {
      addr := a;
    }

    method ReadU8(s: Space) returns (r: Option<byte>)
      modifies this
      ensures addr == U64(old(addr) + 1)
      ensures r == ReadByte(s, old(addr))
    {
      var aligned := Aligned(addr);
      var off: nat := addr - aligned;
      ByteOfWord(s, addr);
      var val := AccessMem(s, aligned);
      r := if val.Some? then Some(ByteIn(s.hostBig, val.value, off)) else None;
      addr := U64(addr + 1);
    }

    method ReadU16(s: Space) returns (r: Option<nat>)
      modifies this
      ensures r == NumberAt(s, old(addr), BYTES_2)
      ensures addr == U64(old(addr) + Advance(s, old(addr), BYTES_2))
    {
      ReadInHalves(s, addr, BYTES_1);
      AdvanceInHalves(s, addr, BYTES_1);
      U64Adds(addr + BYTES_1, Advance(s, U64(addr + BYTES_1), BYTES_1));
      OneByte(s, addr, BYTES_1);
      OneByte(s, U64(addr + 1), BYTES_1);
      var v0 := ReadU8(s);
      if v0.None? {
        return None;
      }
      var v1 := ReadU8(s);
      if v1.None? {
        return None;
      }
      r := Some(PutTogether(s, BYTES_1, v0.value, v1.value));
    }

    method ReadU32(s: Space) returns (r: Option<nat>)
      modifies this
      ensures r == NumberAt(s, old(addr), BYTES_4)
      ensures addr == U64(old(addr) + Advance(s, old(addr), BYTES_4))
    {
      ReadInHalves(s, addr, BYTES_2);
      AdvanceInHalves(s, addr, BYTES_2);
      U64Adds(addr + BYTES_2, Advance(s, U64(addr + BYTES_2), BYTES_2));
      var v0 := ReadU16(s);
      if v0.None? {
        return None;
      }
      var v1 := ReadU16(s);
      if v1.None? {
        return None;
      }
      r := Some(PutTogether(s, BYTES_2, v0.value, v1.value));
    }

    method ReadU64(s: Space) returns (r: Option<nat>)
      modifies this
      ensures r == NumberAt(s, old(addr), BYTES_8)
      ensures addr == U64(old(addr) + Advance(s, old(addr), BYTES_8))
    {
      ReadInHalves(s, addr, BYTES_4);
      AdvanceInHalves(s, addr, BYTES_4);
      U64Adds(addr + BYTES_4, Advance(s, U64(addr + BYTES_4), BYTES_4));
      var v0 := ReadU32(s);
      if v0.None? {
        return None;
      }
      var v1 := ReadU32(s);
      if v1.None? {
        return None;
      }
      r := Some(PutTogether(s, BYTES_4, v0.value, v1.value));
    }

    /** A number the size of an address. */
    method ReadW(s: Space) returns (r: Option<nat>)
      modifies this
      ensures r == NumberAt(s, old(addr), AddrBytes(s))
      ensures addr == U64(old(addr) + Advance(s, old(addr), AddrBytes(s)))
    {
      match s.addrSize
      case Four => r := ReadU32(s);
      case Eight => r := ReadU64(s);
    }
  }

  function AddrBytes(s: Space): nat {
    if s.addrSize == Four then BYTES_4 else BYTES_8
  }

  lemma OneByte(s: Space, a: word, n: nat)
    requires n == BYTES_1
    ensures NumberAt(s, a, n) == if Readable(s, a) then Some(ByteAt(s, a) as nat) else None
    ensures Advance(s, a, n) == n
  {
    assert AllReadable(s, a, n - 1) && AllReadable(s, a, n) == Readable(s, a);
    var bs := BytesAt(s, a, n);
    assert bs == [ByteAt(s, a)];
    assert LittleEndian(bs[1..]) == 0 && BigEndian(bs[..|bs| - 1]) == 0;
  }
}
