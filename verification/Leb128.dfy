/** Numbers in little-endian base 128: the readers, the minimal encodings, and the round trip. */
module Leb128 {
  import opened Machine
  import opened Bits
  import opened Base128
  import opened RemoteMemory

  // ----- the sign -----

  predicate Negative(bs: seq<byte>)
    requires bs != []
  {
    bs[|bs| - 1] / 0x40 % 2 == 1
  }

  /** The payload read as two's complement of its own width. */
  function SignedPayload(bs: seq<byte>): int
    requires bs != []
  {
    if Negative(bs) then Payload(bs) - Pow2(7 * |bs|) else Payload(bs)
  }

  // ----- where a number in memory ends -----

  /** The last byte of the address space cannot be read, so that no read runs past it. */
  predicate Bounded(s: Space) {
    TWO_64 - 1 !in s.bytes
  }

  lemma ReadableBelowTop(s: Space, a: word)
    requires Bounded(s) && Readable(s, a)
    ensures a + 1 < TWO_64
  {
    assert Aligned(a) <= a < Aligned(a) + WORD_SIZE;
    assert a in s.bytes;
  }

  /** The number of bytes up to the first without a continuation bit. */
  function Length(s: Space, a: word): Option<nat>
    requires Bounded(s)
    decreases TWO_64 - a
  {
    if !Readable(s, a) then None
    else if ByteAt(s, a) < 0x80 then Some(1)
    else
      ReadableBelowTop(s, a);
      match Length(s, a + 1)
      case None => None
      case Some(n) => Some(n + 1)
  }

  /** The address past the last byte a reader asks for. */
  function StopsAt(s: Space, a: word): word
    requires Bounded(s)
    decreases TWO_64 - a
  {
    if !Readable(s, a) || ByteAt(s, a) < 0x80 then U64(a + 1)
    else
      ReadableBelowTop(s, a);
      StopsAt(s, a + 1)
  }

  // ----- the readers -----

  /** The value of the first n groups of bits. */
  ghost predicate Gathered(s: Space, from: word, n: nat, val: nat, shift: nat) {
    shift == 7 * n && val == U64(Payload(BytesAt(s, from, n)))
  }

  /** The bytes from `from` up to addr all say that more follow. */
  ghost predicate GoesOn(s: Space, from: word, addr: word, n: nat)
    requires Bounded(s)
  {
    && addr == from + n
    && StopsAt(s, addr) == StopsAt(s, from)
    && Length(s, from) == match Length(s, addr) case None => None case Some(m) => Some(n + m)
  }

  lemma TakeByte(s: Space, from: word, addr: word, n: nat, val: nat, shift: nat)
    requires Gathered(s, from, n, val, shift) && addr == from + n
    ensures Gathered(s, from, n + 1, WithGroup(val, ByteAt(s, addr), shift, WORD_BITS), shift + 7)
  {
    var bs := BytesAt(s, from, n + 1);
    assert bs[..n] == BytesAt(s, from, n);
    WordIsPow2();
    GroupJoins(bs[..n], bs[n], shift, WORD_BITS);
    assert bs[..n] + [bs[n]] == bs;
  }

  lemma GoOn(s: Space, from: word, addr: word, n: nat)
    requires Bounded(s) && GoesOn(s, from, addr, n)
    requires Readable(s, addr) && ByteAt(s, addr) >= 0x80
    ensures U64(addr + 1) == addr + 1 && GoesOn(s, from, U64(addr + 1), n + 1)
  {
    ReadableBelowTop(s, addr);
  }

  /** What reading groups gives: the whole number at `from`, if there is one. */
  ghost predicate GroupsRead(s: Space, from: word, addr: word, val: Option<nat>, shift: nat, last: byte)
    requires Bounded(s)
  {
    && addr == StopsAt(s, from)
    && match Length(s, from)
       case None => val.None?
       case Some(n) => n > 0 && last == ByteAt(s, from + n - 1) && val.Some? && Gathered(s, from, n, val.value, shift)
  }

  lemma BreakOff(s: Space, from: word, addr: word, n: nat, shift: nat)
    requires Bounded(s) && GoesOn(s, from, addr, n) && !Readable(s, addr)
    ensures GroupsRead(s, from, U64(addr + 1), None, shift, 0)
  {
  }

  lemma Finish(s: Space, from: word, addr: word, n: nat, val: nat, shift: nat)
    requires Bounded(s) && GoesOn(s, from, addr, n) && Gathered(s, from, n + 1, val, shift)
    requires Readable(s, addr) && ByteAt(s, addr) < 0x80
    ensures GroupsRead(s, from, U64(addr + 1), Some(val), shift, ByteAt(s, addr))
  {
  }

  /** One group of bits after another, until a byte without a continuation bit. */
  method ReadGroups(s: Space, r: Reader) returns (val: Option<nat>, shift: nat, last: byte)
    requires Bounded(s)
    modifies r
    ensures GroupsRead(s, old(r.addr), r.addr, val, shift, last)
  {
    ghost var from := r.addr;
    ghost var n := 0;
    var v: nat := 0;
    shift := 0;
    while true
      invariant GoesOn(s, from, r.addr, n) && Gathered(s, from, n, v, shift)
      decreases TWO_64 - r.addr
    {
      ghost var addr := r.addr;
      var b := r.ReadU8(s);
      if b.None? {
        BreakOff(s, from, addr, n, shift);
        return None, shift, 0;
      }
      TakeByte(s, from, addr, n, v, shift);
      v := WithGroup(v, b.value, shift, WORD_BITS);
      shift := shift + 7;
      if b.value < 0x80 {
        Finish(s, from, addr, n, v, shift);
        return Some(v), shift, b.value;
      }
      GoOn(s, from, addr, n);
      n := n + 1;
    }
  }

  /** The unsigned number at a. */
  function UlebAt(s: Space, a: word): Option<word>
    requires Bounded(s)
  {
    match Length(s, a)
    case None => None
    case Some(n) => Some(U64(Payload(BytesAt(s, a, n))))
  }

  /** The signed number at a, in two's complement. */
  function SlebAt(s: Space, a: word): Option<word>
    requires Bounded(s)
  {
    match Length(s, a)
    case None => None
    case Some(n) => if n == 0 then None else Some(U64(SignedPayload(BytesAt(s, a, n))))
  }

  method ReadUleb(s: Space, r: Reader) returns (val: Option<word>)
    requires Bounded(s)
    modifies r
    ensures val == UlebAt(s, old(r.addr))
    ensures r.addr == StopsAt(s, old(r.addr))
  {
    var v, _, _ := ReadGroups(s, r);
    val := if v.Some? then Some(v.value) else None;
  }

  method ReadSleb(s: Space, r: Reader) returns (val: Option<word>)
    requires Bounded(s)
    modifies r
    ensures val == SlebAt(s, old(r.addr))
    ensures r.addr == StopsAt(s, old(r.addr))
  {
    ghost var from := r.addr;
    var v, shift, last := ReadGroups(s, r);
    if v.None? {
      return None;
    }
    ghost var n := Length(s, from).value;
    assert BytesAt(s, from, n)[n - 1] == ByteAt(s, from + (n - 1));
    ExtendSign(BytesAt(s, from, n), shift);
    if shift < WORD_BITS && last / 0x40 % 2 == 1 {
      val := Some(Or(v.value, U64(Shl(TWO_64 - 1, shift))));
    } else {
      val := Some(v.value);
    }
  }

  lemma ExtendSign(bs: seq<byte>, shift: nat)
    requires bs != [] && shift == 7 * |bs|
    ensures U64(SignedPayload(bs)) ==
      if shift < WORD_BITS && Negative(bs) then Or(U64(Payload(bs)), U64(Shl(TWO_64 - 1, shift))) else U64(Payload(bs))
  {
    if Negative(bs) {
      if shift < WORD_BITS {
        OnesAbove(Payload(bs), shift);
      } else {
        BeyondWord(Payload(bs), shift);
      }
    }
  }

  lemma OnesAbove(p: nat, shift: nat)
    requires p < Pow2(shift)
    ensures Or(U64(p), U64(Shl(TWO_64 - 1, shift))) == U64(p - Pow2(shift))
  {
    OrStep(p, TWO_64 - 1, shift);
    AddMultiple(p - Pow2(shift), Pow2(shift));
    assert p + Shl(TWO_64 - 1, shift) == p - Pow2(shift) + TWO_64 * Pow2(shift);
  }

  lemma BeyondWord(p: nat, shift: nat)
    requires shift >= WORD_BITS
    ensures U64(p) == U64(p - Pow2(shift))
  {
    WordIsPow2();
    Pow2Add(shift - WORD_BITS, WORD_BITS);
    AddMultiple(p - Pow2(shift), Pow2(shift - WORD_BITS));
  }

  lemma AddMultiple(x: int, k: int)
    ensures U64(x + TWO_64 * k) == U64(x)
  {
    ModUnique(x + TWO_64 * k, TWO_64, x / TWO_64 + k, x % TWO_64);
  }

  // ----- the minimal encodings -----

  function EncodeUleb(n: nat): seq<byte> {
    if n < 0x80 then [n] else [n % 0x80 + 0x80] + EncodeUleb(n / 0x80)
  }

  function EncodeSleb(n: int): seq<byte>
    decreases if n < 0 then -n else n
  {
    if -0x40 <= n < 0x40 then [n % 0x80] else [n % 0x80 + 0x80] + EncodeSleb(n / 0x80)
  }

  lemma ContinuedByte(n: int, b: byte)
    requires b == n % 0x80 + 0x80
    ensures b >= 0x80 && b % 0x80 + 0x80 * (n / 0x80) == n
  {
  }

  lemma {:induction false} UlebMeans(n: nat)
    ensures WellFormed(EncodeUleb(n)) && Payload(EncodeUleb(n)) == n
  {
    if n < 0x80 {
      PayloadCons(n, []);
      assert [n] + [] == EncodeUleb(n);
    } else {
      var rest := EncodeUleb(n / 0x80);
      var b := n % 0x80 + 0x80;
      UlebMeans(n / 0x80);
      ContinuedByte(n, b);
      WellFormedCons(b, rest);
      PayloadCons(b, rest);
    }
  }

  lemma SlebDigit(n: int, bs: seq<byte>)
    requires -0x40 <= n < 0x40 && bs == [n % 0x80]
    ensures WellFormed(bs) && SignedPayload(bs) == n
  {
    PayloadCons(n % 0x80, []);
    assert [(n % 0x80) as byte] + [] == bs;
    SevenBits(0);
    assert Pow2(0) == 1;
  }

  lemma {:induction false} SlebMeans(n: int)
    ensures WellFormed(EncodeSleb(n)) && SignedPayload(EncodeSleb(n)) == n
    decreases if n < 0 then -n else n
  {
    if -0x40 <= n < 0x40 {
      SlebDigit(n, [n % 0x80]);
    } else {
      var rest := EncodeSleb(n / 0x80);
      var b := n % 0x80 + 0x80;
      SlebMeans(n / 0x80);
      ContinuedByte(n, b);
      WellFormedCons(b, rest);
      SignedCons(b, rest);
    }
  }

  lemma SignedCons(b: byte, rest: seq<byte>)
    requires rest != []
    ensures SignedPayload([b] + rest) == b % 0x80 + 0x80 * SignedPayload(rest)
  {
    PayloadCons(b, rest);
    SevenBits(|rest|);
  }

  /** No sequence of the same payload is shorter. */
  lemma {:induction false} UlebIsShortest(n: nat, bs: seq<byte>)
    requires bs != [] && Payload(bs) == n
    ensures |EncodeUleb(n)| <= |bs|
  {
    UlebFits(n, |bs|);
  }

  lemma {:induction false} UlebFits(n: nat, k: nat)
    requires k > 0 && n < Pow2(7 * k)
    ensures |EncodeUleb(n)| <= k
  {
    assert Pow2(0) == 1;
    SevenBits(k - 1);
    if n >= 0x80 {
      UlebFits(n / 0x80, k - 1);
    }
  }

  /** The numbers that k bytes can hold with their sign. */
  predicate SignedFits(n: int, k: nat)
    requires k > 0
  {
    var m: int := Pow2(7 * k - 1);
    -m <= n < m
  }

  lemma {:induction false} SlebLength(n: int, k: nat)
    requires k > 0
    ensures |EncodeSleb(n)| <= k <==> SignedFits(n, k)
    decreases k
  {
    if k == 1 {
      SevenBits(0);
      assert Pow2(7 * k) == 2 * Pow2(7 * k - 1);
    } else {
      SlebLength(n / 0x80, k - 1);
      SignedShift(n, k);
      Monotone(7 * (k - 1) - 1 + 7, 6);
    }
  }

  lemma SignedShift(n: int, k: nat)
    requires k > 1
    ensures SignedFits(n, k) <==> SignedFits(n / 0x80, k - 1)
  {
    SevenBits(k - 1);
    SevenBits(k - 2);
    assert Pow2(7 * k) == 2 * Pow2(7 * k - 1);
    assert Pow2(7 * (k - 1)) == 2 * Pow2(7 * (k - 1) - 1);
  }

  lemma {:induction false} Monotone(a: nat, b: nat)
    requires a >= b
    ensures Pow2(a) >= Pow2(b)
  {
    if a > b {
      Monotone(a - 1, b);
    }
  }

  // ----- the round trips -----

  /** The bytes stand at a, with others or nothing after them. */
  ghost predicate Holds(s: Space, a: word, bs: seq<byte>) {
    a + |bs| < TWO_64 && AllReadable(s, a, |bs|) && BytesAt(s, a, |bs|) == bs
  }

  lemma HoldsRest(s: Space, a: word, bs: seq<byte>, one: nat)
    requires Holds(s, a, bs) && bs != [] && one == 1
    ensures Readable(s, a) && ByteAt(s, a) == bs[0]
    ensures Holds(s, a + one, bs[one..])
  {
    Split(s, a, one, |bs| - one);
    assert bs[0] == ByteAt(s, a + 0);
    assert AllReadable(s, a, one) == Readable(s, a + 0);
    assert BytesAt(s, a + one, |bs| - one) == bs[one..];
  }

  lemma {:induction false} WholeNumber(s: Space, a: word, bs: seq<byte>)
    requires Bounded(s) && WellFormed(bs) && Holds(s, a, bs)
    ensures Length(s, a) == Some(|bs|) && StopsAt(s, a) == a + |bs|
    decreases |bs|
  {
    HoldsRest(s, a, bs, 1);
    WordStays(a + 1);
    if |bs| > 1 {
      assert bs == [bs[0]] + bs[1..];
      WellFormedCons(bs[0], bs[1..]);
      WholeNumber(s, a + 1, bs[1..]);
    }
  }

  lemma ReadWhole(s: Space, a: word, bs: seq<byte>)
    requires Bounded(s) && WellFormed(bs) && Holds(s, a, bs)
    ensures UlebAt(s, a) == Some(U64(Payload(bs)))
    ensures SlebAt(s, a) == Some(U64(SignedPayload(bs)))
    ensures StopsAt(s, a) == a + |bs|
  {
    WholeNumber(s, a, bs);
  }

  lemma UlebRoundTrip(s: Space, a: word, n: word)
    requires Bounded(s) && Holds(s, a, EncodeUleb(n))
    ensures UlebAt(s, a) == Some(n) && StopsAt(s, a) == a + |EncodeUleb(n)|
  {
    UlebMeans(n);
    ReadWhole(s, a, EncodeUleb(n));
    WordStays(n);
  }

  lemma SignedWord(n: int)
    requires -TWO_63 <= n < TWO_63
    ensures S64(U64(n)) == n
  {
    if n < 0 {
      ModUnique(n, TWO_64, -1, n + TWO_64);
    } else {
      WordStays(n);
    }
  }

  lemma SlebRoundTrip(s: Space, a: word, n: int)
    requires Bounded(s) && -TWO_63 <= n < TWO_63 && Holds(s, a, EncodeSleb(n))
    ensures SlebAt(s, a) == Some(U64(n)) && StopsAt(s, a) == a + |EncodeSleb(n)|
    ensures S64(U64(n)) == n
  {
    SlebMeans(n);
    ReadWhole(s, a, EncodeSleb(n));
    SignedWord(n);
  }
}
