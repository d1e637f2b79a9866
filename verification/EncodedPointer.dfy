/** Pointers stored as DWARF exception-handling encodings: the reader, and which pointers survive the trip. */
module EncodedPointer {
  import opened Machine
  import opened Bits
  import opened RemoteMemory
  import opened Base128
  import opened Leb128

  // formats
  const PE_OMIT: byte := 0xff
  const PE_PTR: byte := 0x00
  const PE_ULEB128: byte := 0x01
  const PE_UDATA2: byte := 0x02
  const PE_UDATA4: byte := 0x03
  const PE_UDATA8: byte := 0x04
  const PE_SLEB128: byte := 0x09
  const PE_SDATA2: byte := 0x0a
  const PE_SDATA4: byte := 0x0b
  const PE_SDATA8: byte := 0x0c

  // applications
  const PE_ABSPTR: byte := 0x00
  const PE_PCREL: byte := 0x10
  const PE_DATAREL: byte := 0x30
  const PE_FUNCREL: byte := 0x40
  const PE_ALIGNED: byte := 0x50

  /** What the procedure's description gives the reader. */
  datatype ProcInfo = ProcInfo(gp: word, startIp: word)

  datatype Answer = Pointer(value: word) | Unreadable | Invalid

  function Format(encoding: byte): byte {
    encoding % 0x10
  }

  function Application(encoding: byte): byte {
    encoding / 0x10 % 8 * 0x10
  }

  predicate Indirect(encoding: byte) {
    encoding >= 0x80
  }

  // ----- what the reader should find -----

  /** Two's complement of a width whose sign bit is worth `half`. */
  function SignExtend(x: nat, half: nat): int {
    if x < half then x else x - 2 * half
  }

  function Unsigned(n: Option<nat>): Answer {
    if n.Some? then Pointer(U64(n.value)) else Unreadable
  }

  function Signed(n: Option<nat>, half: nat): Answer {
    if n.Some? then Pointer(U64(SignExtend(n.value, half))) else Unreadable
  }

  /** The number at a in the given format; the signed LEB128 format is read as an unsigned one. */
  function RawAt(s: Space, a: word, format: byte): Answer
    requires Bounded(s)
  {
    if format == PE_PTR then Unsigned(NumberAt(s, a, AddrBytes(s)))
    else if format == PE_ULEB128 || format == PE_SLEB128 then
      (if UlebAt(s, a).Some? then Pointer(UlebAt(s, a).value) else Unreadable)
    else if format == PE_UDATA2 then Unsigned(NumberAt(s, a, BYTES_2))
    else if format == PE_UDATA4 then Unsigned(NumberAt(s, a, BYTES_4))
    else if format == PE_UDATA8 then Unsigned(NumberAt(s, a, BYTES_8))
    else if format == PE_SDATA2 then Signed(NumberAt(s, a, BYTES_2), 0x8000)
    else if format == PE_SDATA4 then Signed(NumberAt(s, a, BYTES_4), 0x8000_0000)
    else if format == PE_SDATA8 then Signed(NumberAt(s, a, BYTES_8), TWO_63)
    else Invalid
  }

  /** The address after the number, or after its first unreadable byte. */
  function RawEnd(s: Space, a: word, format: byte): word
    requires Bounded(s)
  {
    if format == PE_PTR then U64(a + Advance(s, a, AddrBytes(s)))
    else if format == PE_ULEB128 || format == PE_SLEB128 then StopsAt(s, a)
    else if format == PE_UDATA2 || format == PE_SDATA2 then U64(a + Advance(s, a, BYTES_2))
    else if format == PE_UDATA4 || format == PE_SDATA4 then U64(a + Advance(s, a, BYTES_4))
    else if format == PE_UDATA8 || format == PE_SDATA8 then U64(a + Advance(s, a, BYTES_8))
    else a
  }

  function Base(app: byte, a: word, pi: ProcInfo): Option<word> {
    if app == PE_ABSPTR then Some(0)
    else if app == PE_PCREL then Some(a)
    else if app == PE_DATAREL then Some(pi.gp)
    else if app == PE_FUNCREL then Some(pi.startIp)
    else None
  }

  /** An address of a four-byte target keeps its low half. */
  function Trim(s: Space, x: word): word {
    if s.addrSize == Four then U32(x) else x
  }

  /** The next multiple of the address size. */
  function RoundUp(s: Space, a: word): word {
    var size: int := AddrBytes(s);
    U64(a + size - 1) / size * size
  }

  /** A raw number other than 0 made absolute. */
  function Applied(s: Space, a: word, encoding: byte, pi: ProcInfo, raw: word): Answer {
    match Base(Application(encoding), a, pi)
    case None => Invalid
    case Some(base) =>
      var p := Trim(s, U64(base + raw));
      if Indirect(encoding) then Unsigned(NumberAt(s, p, AddrBytes(s))) else Pointer(p)
  }

  function PointerAt(s: Space, a: word, encoding: byte, pi: ProcInfo): Answer
    requires Bounded(s)
  {
    if encoding == PE_OMIT then Pointer(0)
    else if encoding == PE_ALIGNED then Unsigned(NumberAt(s, RoundUp(s, a), AddrBytes(s)))
    else
      var raw := RawAt(s, a, Format(encoding));
      ReadPointer(s, a, encoding, pi, raw)
  }

  /** The pointer that a raw value read at a stands for; 0 stays 0. */
  function ReadPointer(s: Space, a: word, encoding: byte, pi: ProcInfo, raw: Answer): Answer
    requires Bounded(s)
  {
    if !raw.Pointer? || raw.value == 0 then raw else Applied(s, a, encoding, pi, raw.value)
  }

  function PointerEnd(s: Space, a: word, encoding: byte): word
    requires Bounded(s)
  {
    if encoding == PE_OMIT then a
    else if encoding == PE_ALIGNED then U64(RoundUp(s, a) + Advance(s, RoundUp(s, a), AddrBytes(s)))
    else RawEnd(s, a, Format(encoding))
  }

  // ----- the reader -----

  method ReadRaw(s: Space, r: Reader, format: byte) returns (raw: Answer)
    requires Bounded(s)
    modifies r
    ensures raw == RawAt(s, old(r.addr), format)
    ensures r.addr == RawEnd(s, old(r.addr), format)
  {
    var n: Option<nat> := None;
    if format == PE_PTR {
      n := r.ReadW(s);
      raw := Unsigned(n);
    } else if format == PE_ULEB128 || format == PE_SLEB128 {
      var v := ReadUleb(s, r);
      raw := if v.Some? then Pointer(v.value) else Unreadable;
    } else if format == PE_UDATA2 {
      n := r.ReadU16(s);
      raw := Unsigned(n);
    } else if format == PE_UDATA4 {
      n := r.ReadU32(s);
      raw := Unsigned(n);
    } else if format == PE_UDATA8 {
      n := r.ReadU64(s);
      raw := Unsigned(n);
    } else if format == PE_SDATA2 {
      n := r.ReadU16(s);
      raw := Signed(n, 0x8000);
    } else if format == PE_SDATA4 {
      n := r.ReadU32(s);
      raw := Signed(n, 0x8000_0000);
    } else if format == PE_SDATA8 {
      n := r.ReadU64(s);
      raw := Signed(n, TWO_63);
    } else {
      raw := Invalid;
    }
  }

  /** dwarf_read_encoded_pointer */
  method ReadEncodedPointer(s: Space, r: Reader, encoding: byte, pi: ProcInfo) returns (p: Answer)
    requires Bounded(s)
    modifies r
    ensures p == PointerAt(s, old(r.addr), encoding, pi)
    ensures r.addr == PointerEnd(s, old(r.addr), encoding)
  {
    var initial := r.addr;
    if encoding == PE_OMIT {
      return Pointer(0);
    }
    if encoding == PE_ALIGNED {
      r.addr := RoundUp(s, initial);
      var n := r.ReadW(s);
      return Unsigned(n);
    }
    var raw := ReadRaw(s, r, Format(encoding));
    p := MakeAbsolute(s, initial, encoding, pi, raw);
  }

  /** The pointer that a raw value read at `initial` stands for. */
  method MakeAbsolute(s: Space, initial: word, encoding: byte, pi: ProcInfo, raw: Answer) returns (p: Answer)
    requires Bounded(s)
    ensures p == ReadPointer(s, initial, encoding, pi, raw)
  {
    if !raw.Pointer? || raw.value == 0 {
      return raw;
    }
    var base := Base(Application(encoding), initial, pi);
    if base.None? {
      return Invalid;
    }
    var val := Trim(s, U64(base.value + raw.value));
    if Indirect(encoding) {
      var at := new Reader(val);
      var n := at.ReadW(s);
      return Unsigned(n);
    }
    p := Pointer(val);
  }

  // ----- encodings -----

  /** The n bytes of a number in the target's order. */
  function FixedBytes(big: bool, x: nat, n: nat): (bs: seq<byte>)
    ensures |bs| == n
  {
    if n == 0 then []
    else if big then FixedBytes(big, x / 0x100, n - 1) + [x % 0x100]
    else [x % 0x100] + FixedBytes(big, x / 0x100, n - 1)
  }

  lemma {:induction false} FixedMeans(big: bool, x: nat, n: nat)
    requires x < Pow2(8 * n)
    ensures Composed(big, FixedBytes(big, x, n)) == x
  {
    if n > 0 {
      ByteShift(n - 1);
      FixedMeans(big, x / 0x100, n - 1);
      var bs := FixedBytes(big, x, n);
      if big {
        assert bs[..n - 1] == FixedBytes(big, x / 0x100, n - 1);
      } else {
        assert bs[1..] == FixedBytes(big, x / 0x100, n - 1);
      }
    }
  }

  lemma Widths()
    ensures Pow2(8 * BYTES_2) == 0x1_0000 && Pow2(8 * BYTES_4) == TWO_32 && Pow2(8 * BYTES_8) == TWO_64
  {
    ByteShift(0);
    ByteShift(1);
    Pow2Add(8 * BYTES_2, 8 * BYTES_2);
    Pow2Add(8 * BYTES_4, 8 * BYTES_4);
  }

  /** The formats of numbers, by the low four bits of an encoding. */
  predicate IsKnown(format: byte) {
    format <= 4 || 9 <= format <= 12
  }

  predicate InRange(d: int, low: int, high: int) {
    low <= d < high
  }

  /** The displacements a format can store. */
  predicate Representable(s: Space, format: byte, d: int) {
    match format
    case 0 => InRange(d, 0, AddressSpace(s))
    case 2 => InRange(d, 0, 0x1_0000)
    case 3 => InRange(d, 0, TWO_32)
    case 1 | 4 => InRange(d, 0, TWO_64)
    case 10 => InRange(d, -0x8000, 0x8000)
    case 11 => InRange(d, -0x8000_0000, 0x8000_0000)
    case _ => InRange(d, -TWO_63, TWO_63)
  }

  /** The bytes of a displacement: an address, LEB128, or two, four or eight bytes. */
  function EncodeNumber(s: Space, format: byte, d: int): seq<byte>
    requires IsKnown(format) && Representable(s, format, d)
  {
    match format
    case 0 => FixedBytes(s.targetBig, d, AddrBytes(s))
    case 1 => EncodeUleb(d)
    case 9 => EncodeSleb(d)
    case 2 | 10 => FixedBytes(s.targetBig, d % 0x1_0000, BYTES_2)
    case 3 | 11 => FixedBytes(s.targetBig, d % TWO_32, BYTES_4)
    case _ => FixedBytes(s.targetBig, d % TWO_64, BYTES_8)
  }

  /** One more than the target's largest address. */
  function AddressSpace(s: Space): int {
    if s.addrSize == Four then 0x1_0000_0000 else 0x1_0000_0000_0000_0000
  }

  // ----- the round trip -----

  lemma NumberHeld(s: Space, a: word, x: nat, n: nat)
    requires x < Pow2(8 * n) && Holds(s, a, FixedBytes(s.targetBig, x, n))
    ensures NumberAt(s, a, n) == Some(x)
    ensures U64(a + Advance(s, a, n)) == a + n
  {
    FixedMeans(s.targetBig, x, n);
    AdvanceAll(s, a, n);
    WordStays(a + n);
  }

  lemma SignedHeld(s: Space, a: word, d: int, n: nat, half: nat, whole: nat)
    requires whole == 2 * half == Pow2(8 * n) && InRange(d, 0 - half, half)
    requires Holds(s, a, FixedBytes(s.targetBig, d % whole, n))
    ensures Signed(NumberAt(s, a, n), half) == Pointer(U64(d))
    ensures U64(a + Advance(s, a, n)) == a + n
  {
    ModUnique(d, whole, if d < 0 then -1 else 0, if d < 0 then d + whole else d);
    NumberHeld(s, a, d % whole, n);
  }

  lemma UnsignedHeld(s: Space, a: word, d: nat, n: nat, whole: nat)
    requires whole == Pow2(8 * n) && d < whole
    requires Holds(s, a, FixedBytes(s.targetBig, d % whole, n))
    ensures Unsigned(NumberAt(s, a, n)) == Pointer(U64(d))
    ensures U64(a + Advance(s, a, n)) == a + n
  {
    ModUnique(d, whole, 0, d);
    NumberHeld(s, a, d, n);
  }

  /** Every format but signed LEB128 gives back the displacement it was given. */
  lemma RawRoundTrip(s: Space, a: word, format: byte, d: int)
    requires Bounded(s) && IsKnown(format) && format != PE_SLEB128 && Representable(s, format, d)
    requires Holds(s, a, EncodeNumber(s, format, d))
    ensures RawAt(s, a, format) == Pointer(U64(d))
    ensures RawEnd(s, a, format) == a + |EncodeNumber(s, format, d)|
  {
    match format
    case 0 => RawAddress(s, a, d);
    case 1 => RawUleb(s, a, d);
    case 2 | 10 => RawTwo(s, a, format == 10, d);
    case 3 | 11 => RawFour(s, a, format == 11, d);
    case _ => RawEight(s, a, format == 12, d);
  }

  /** The number at a in the format is d, and ends after n bytes. */
  ghost predicate ReadAs(s: Space, a: word, format: byte, d: int, n: nat)
    requires Bounded(s)
  {
    RawAt(s, a, format) == Pointer(U64(d)) && RawEnd(s, a, format) == a + n
  }

  lemma RawAddress(s: Space, a: word, d: int)
    requires Bounded(s) && InRange(d, 0, AddressSpace(s)) && Holds(s, a, FixedBytes(s.targetBig, d, AddrBytes(s)))
    ensures ReadAs(s, a, 0, d, AddrBytes(s))
  {
    AddressHeld(s, a, d);
    WordStays(d);
  }

  lemma RawUleb(s: Space, a: word, d: int)
    requires Bounded(s) && InRange(d, 0, TWO_64) && Holds(s, a, EncodeUleb(d))
    ensures ReadAs(s, a, 1, d, |EncodeUleb(d)|)
  {
    UlebRoundTrip(s, a, d);
    WordStays(d);
  }

  lemma RawTwo(s: Space, a: word, signed: bool, d: int)
    requires Bounded(s) && Holds(s, a, FixedBytes(s.targetBig, d % 0x1_0000, BYTES_2))
    requires if signed then InRange(d, -0x8000, 0x8000) else InRange(d, 0, 0x1_0000)
    ensures ReadAs(s, a, if signed then 10 else 2, d, 2)
  {
    Widths();
    if signed {
      SignedHeld(s, a, d, BYTES_2, 0x8000, 0x1_0000);
    } else {
      UnsignedHeld(s, a, d, BYTES_2, 0x1_0000);
    }
  }

  lemma RawFour(s: Space, a: word, signed: bool, d: int)
    requires Bounded(s) && Holds(s, a, FixedBytes(s.targetBig, d % TWO_32, BYTES_4))
    requires if signed then InRange(d, -0x8000_0000, 0x8000_0000) else InRange(d, 0, TWO_32)
    ensures ReadAs(s, a, if signed then 11 else 3, d, 4)
  {
    Widths();
    if signed {
      SignedHeld(s, a, d, BYTES_4, 0x8000_0000, TWO_32);
    } else {
      UnsignedHeld(s, a, d, BYTES_4, TWO_32);
    }
  }

  lemma RawEight(s: Space, a: word, signed: bool, d: int)
    requires Bounded(s) && Holds(s, a, FixedBytes(s.targetBig, d % TWO_64, BYTES_8))
    requires if signed then InRange(d, -TWO_63, TWO_63) else InRange(d, 0, TWO_64)
    ensures ReadAs(s, a, if signed then 12 else 4, d, 8)
  {
    Widths();
    if signed {
      SignedHeld(s, a, d, BYTES_8, TWO_63, TWO_64);
    } else {
      UnsignedHeld(s, a, d, BYTES_8, TWO_64);
    }
  }

  /** An encoding that is applied to a known base and says itself where the pointer is. */
  predicate IsDirect(encoding: byte) {
    && encoding != PE_OMIT && encoding != PE_ALIGNED && !Indirect(encoding)
    && IsKnown(Format(encoding)) && IsApplied(Application(encoding))
  }

  predicate IsApplied(app: byte) {
    app == PE_ABSPTR || app == PE_PCREL || app == PE_DATAREL || app == PE_FUNCREL
  }

  lemma DirectlyRead(s: Space, a: word, encoding: byte, pi: ProcInfo, raw: word)
    requires Bounded(s) && IsDirect(encoding)
    ensures Base(Application(encoding), a, pi).Some?
    ensures ReadPointer(s, a, encoding, pi, Pointer(raw)) ==
      Pointer(if raw == 0 then 0 else Trim(s, U64(Base(Application(encoding), a, pi).value + raw)))
  {
  }

  lemma DirectPointer(s: Space, a: word, encoding: byte, pi: ProcInfo, raw: word)
    requires Bounded(s) && IsDirect(encoding) && RawAt(s, a, Format(encoding)) == Pointer(raw)
    ensures Base(Application(encoding), a, pi).Some?
    ensures PointerAt(s, a, encoding, pi) ==
      Pointer(if raw == 0 then 0 else Trim(s, U64(Base(Application(encoding), a, pi).value + raw)))
  {
    DirectlyRead(s, a, encoding, pi, raw);
  }

  lemma SumOfWords(base: word, d: int)
    ensures U64(base + U64(d)) == U64(base + d)
  {
    U64Adds(d, base);
  }

  lemma NonzeroWord(s: Space, format: byte, d: int)
    requires Representable(s, format, d)
    ensures U64(d) == 0 <==> d == 0
  {
    if d < 0 {
      ModUnique(d, TWO_64, -1, d + TWO_64);
    } else {
      WordStays(d);
    }
  }

  /** High bits that name a base: none, the number's own address, gp, or the start of the procedure. */
  predicate NamesBase(encoding: byte) {
    encoding < 0x20 || 0x30 <= encoding < 0x50
  }

  function Origin(encoding: byte, a: word, pi: ProcInfo): word {
    if encoding < 0x10 then 0 else if encoding < 0x20 then a else if encoding < 0x40 then pi.gp else pi.startIp
  }

  lemma BaseIsOrigin(encoding: byte, a: word, pi: ProcInfo)
    requires NamesBase(encoding) && IsKnown(encoding % 0x10)
    ensures IsDirect(encoding) && Base(Application(encoding), a, pi) == Some(Origin(encoding, a, pi))
    ensures encoding < 0x80 && IsKnown(encoding % 0x10)
  {
    var q, r := encoding / 0x10, encoding % 0x10;
    assert encoding == 0x10 * q + r;
  }

  /** Memory at a holds a displacement in the format of the encoding, which is not signed LEB128. */
  ghost predicate Stored(s: Space, a: word, encoding: byte, d: int) {
    && IsKnown(encoding % 0x10) && encoding % 0x10 != 9 && Representable(s, encoding % 0x10, d)
    && Holds(s, a, EncodeNumber(s, encoding % 0x10, d))
  }

  /** A sum wrapped to an address of the target. */
  function Wrapped(s: Space, x: int): word {
    if s.addrSize == Four then x % 0x1_0000_0000 else x % 0x1_0000_0000_0000_0000
  }

  lemma StoredPointer(s: Space, a: word, encoding: byte, pi: ProcInfo, d: int)
    requires Bounded(s) && NamesBase(encoding) && Stored(s, a, encoding, d)
    ensures PointerAt(s, a, encoding, pi) == Pointer(if d == 0 then 0 else Wrapped(s, Origin(encoding, a, pi) + d))
    ensures PointerEnd(s, a, encoding) == a + |EncodeNumber(s, encoding % 0x10, d)|
  {
    RawRoundTrip(s, a, encoding % 0x10, d);
    PointerIsRead(s, a, encoding, pi);
    DirectValue(s, a, encoding, pi, d);
  }

  lemma DirectValue(s: Space, a: word, encoding: byte, pi: ProcInfo, d: int)
    requires Bounded(s) && NamesBase(encoding) && IsKnown(encoding % 0x10) && Representable(s, encoding % 0x10, d)
    ensures ReadPointer(s, a, encoding, pi, Pointer(U64(d))) ==
      Pointer(if d == 0 then 0 else Wrapped(s, Origin(encoding, a, pi) + d))
  {
    BaseIsOrigin(encoding, a, pi);
    DirectlyRead(s, a, encoding, pi, U64(d));
    NonzeroWord(s, encoding % 0x10, d);
    TargetOfWord(s, Origin(encoding, a, pi), d);
  }

  lemma TrimWraps(s: Space, x: int)
    ensures Trim(s, U64(x)) == Wrapped(s, x)
  {
    if s.addrSize == Four {
      ModUnique(x, TWO_32, x / TWO_64 * TWO_32 + U64(x) / TWO_32, U32(U64(x)));
    }
  }

  /** A stored displacement leads from the base that the encoding names; 0 stands for no pointer. */
  lemma PointerRoundTrip(s: Space, a: word, encoding: byte, pi: ProcInfo, d: int)
    requires Bounded(s) && NamesBase(encoding) && Stored(s, a, encoding, d)
    ensures d == 0 ==> PointerAt(s, a, encoding, pi) == Pointer(0)
    ensures d != 0 ==>
      && (encoding < 0x10 ==> PointerAt(s, a, encoding, pi) == Pointer(Wrapped(s, d)))
      && (0x10 <= encoding < 0x20 ==> PointerAt(s, a, encoding, pi) == Pointer(Wrapped(s, a + d)))
      && (0x30 <= encoding < 0x40 ==> PointerAt(s, a, encoding, pi) == Pointer(Wrapped(s, pi.gp + d)))
      && (0x40 <= encoding < 0x50 ==> PointerAt(s, a, encoding, pi) == Pointer(Wrapped(s, pi.startIp + d)))
    ensures PointerEnd(s, a, encoding) == a + |EncodeNumber(s, encoding % 0x10, d)|
  {
    StoredPointer(s, a, encoding, pi, d);
  }

  /** With bit 7 the pointer is the address-sized number that the target of the displacement holds. */
  lemma IndirectRoundTrip(s: Space, a: word, encoding: byte, pi: ProcInfo, d: int, x: nat)
    requires Bounded(s) && NamesBase(encoding) && Stored(s, a, encoding, d) && d != 0
    requires x < AddressSpace(s) && Holds(s, Wrapped(s, Origin(encoding, a, pi) + d), FixedBytes(s.targetBig, x, AddrBytes(s)))
    ensures PointerAt(s, a, 0x80 + encoding, pi) == Pointer(x)
    ensures PointerEnd(s, a, 0x80 + encoding) == PointerEnd(s, a, encoding)
  {
    HighBit(encoding);
    RawRoundTrip(s, a, encoding % 0x10, d);
    PointerIsRead(s, a, encoding, pi);
    PointerIsRead(s, a, 0x80 + encoding, pi);
    IndirectValue(s, a, encoding, pi, d, x);
  }

  lemma PointerIsRead(s: Space, a: word, encoding: byte, pi: ProcInfo)
    requires Bounded(s) && encoding != 0xff && encoding != 0x50
    ensures PointerAt(s, a, encoding, pi) == ReadPointer(s, a, encoding, pi, RawAt(s, a, Format(encoding)))
    ensures PointerEnd(s, a, encoding) == RawEnd(s, a, Format(encoding))
  {
  }

  lemma IndirectValue(s: Space, a: word, encoding: byte, pi: ProcInfo, d: int, x: nat)
    requires Bounded(s) && NamesBase(encoding) && IsKnown(encoding % 0x10) && Representable(s, encoding % 0x10, d) && d != 0
    requires x < AddressSpace(s) && Holds(s, Wrapped(s, Origin(encoding, a, pi) + d), FixedBytes(s.targetBig, x, AddrBytes(s)))
    ensures ReadPointer(s, a, 0x80 + encoding, pi, Pointer(U64(d))) == Pointer(x)
  {
    NonzeroWord(s, encoding % 0x10, d);
    IndirectlyRead(s, a, encoding, pi, U64(d));
    IndirectNumber(s, Origin(encoding, a, pi), d, x);
  }

  lemma IndirectNumber(s: Space, base: word, d: int, x: nat)
    requires x < AddressSpace(s) && Holds(s, Wrapped(s, base + d), FixedBytes(s.targetBig, x, AddrBytes(s)))
    ensures Unsigned(NumberAt(s, Trim(s, U64(base + U64(d))), AddrBytes(s))) == Pointer(x)
  {
    TargetOfWord(s, base, d);
    AddressHeld(s, Wrapped(s, base + d), x);
  }

  lemma TargetOfWord(s: Space, base: word, d: int)
    ensures Trim(s, U64(base + U64(d))) == Wrapped(s, base + d)
  {
    SumOfWords(base, d);
    TrimWraps(s, base + d);
  }

  lemma IndirectlyRead(s: Space, a: word, encoding: byte, pi: ProcInfo, raw: word)
    requires Bounded(s) && NamesBase(encoding) && IsKnown(encoding % 0x10) && raw != 0
    ensures ReadPointer(s, a, 0x80 + encoding, pi, Pointer(raw)) ==
      Unsigned(NumberAt(s, Trim(s, U64(Origin(encoding, a, pi) + raw)), AddrBytes(s)))
  {
    BaseIsOrigin(encoding, a, pi);
    HighBit(encoding);
  }

  lemma AddressHeld(s: Space, at: word, x: nat)
    requires x < AddressSpace(s) && Holds(s, at, FixedBytes(s.targetBig, x, AddrBytes(s)))
    ensures Unsigned(NumberAt(s, at, AddrBytes(s))) == Pointer(x)
    ensures U64(at + Advance(s, at, AddrBytes(s))) == at + AddrBytes(s)
  {
    Widths();
    NumberHeld(s, at, x, AddrBytes(s));
    WordStays(x);
  }

  lemma HighBit(encoding: byte)
    requires encoding < 0x50
    ensures Format(0x80 + encoding) == encoding % 0x10 && Application(0x80 + encoding) == Application(encoding)
    ensures Format(encoding) == encoding % 0x10
  {
    var q, r := encoding / 0x10, encoding % 0x10;
    assert encoding == 0x10 * q + r;
    assert (0x80 + encoding) / 0x10 == 8 + q;
  }

  /** 0xff stands for no pointer at all, and 0x50 for one at the first multiple of the address size. */
  lemma OmittedAndAligned(s: Space, a: word, pi: ProcInfo, at: word, x: nat)
    requires Bounded(s) && x < AddressSpace(s)
    requires a <= at < a + AddrBytes(s) && at % AddrBytes(s) == 0 && Holds(s, at, FixedBytes(s.targetBig, x, AddrBytes(s)))
    ensures PointerAt(s, a, 0xff, pi) == Pointer(0) && PointerEnd(s, a, 0xff) == a
    ensures PointerAt(s, a, 0x50, pi) == Pointer(x) && PointerEnd(s, a, 0x50) == at + AddrBytes(s)
  {
    RoundsUpTo(s, a, at);
    AddressHeld(s, at, x);
  }

  lemma RoundsUpTo(s: Space, a: word, at: word)
    requires a <= at < a + AddrBytes(s) && at % AddrBytes(s) == 0 && at + AddrBytes(s) < TWO_64
    ensures RoundUp(s, a) == at
  {
    var n: int := AddrBytes(s);
    WordStays(a + n - 1);
    if s.addrSize == Four {
      assert (a + 3) / 4 == at / 4;
    } else {
      assert (a + 7) / 8 == at / 8;
    }
  }

  // ----- the signed LEB128 format -----

  /** The displacement the reader took leads where the one stored should. */
  ghost predicate SameTarget(s: Space, base: word, raw: word, d: int) {
    Trim(s, U64(base + raw)) == Trim(s, U64(base + d))
  }

  lemma ReadsTargetIff(s: Space, a: word, encoding: byte, pi: ProcInfo, raw: word, d: int, p: word)
    requires Bounded(s) && NamesBase(encoding) && IsKnown(encoding % 0x10)
    requires RawAt(s, a, encoding % 0x10) == Pointer(raw) && raw != 0
    requires p == Wrapped(s, Origin(encoding, a, pi) + d)
    ensures PointerAt(s, a, encoding, pi) == Pointer(p) <==> SameTarget(s, Origin(encoding, a, pi), raw, d)
  {
    BaseIsOrigin(encoding, a, pi);
    TrimWraps(s, Origin(encoding, a, pi) + d);
    DirectPointer(s, a, encoding, pi, raw);
  }

  /** What the unsigned reader makes of a signed encoding. */
  lemma MisreadSleb(d: int)
    ensures Payload(EncodeSleb(d)) == if d < 0 then d + Pow2(7 * |EncodeSleb(d)|) else d
  {
    var bs := EncodeSleb(d);
    SlebMeans(d);
    if Negative(bs) {
      assert Payload(bs) < Pow2(7 * |bs|);
    }
  }

  lemma SmallShows(x: int, m: int, k: int)
    requires 0 < k < m
    ensures (x + k) % m != x % m
  {
    var r := x % m + k;
    ModUnique(x + k, m, x / m + (if r < m then 0 else 1), if r < m then r else r - m);
  }

  lemma MultipleHides(x: int, m: int, q: int)
    requires m > 0
    ensures (x + m * q) % m == x % m
  {
    assert x == m * (x / m) + x % m;
    assert x + m * q == m * (x / m + q) + x % m;
    ModUnique(x + m * q, m, x / m + q, x % m);
  }

  lemma HighPowerHides(x: int, k: nat, w: nat)
    requires k >= w
    ensures (x + Pow2(k)) % Pow2(w) == x % Pow2(w)
  {
    Pow2Add(w, k - w);
    MultipleHides(x, Pow2(w), Pow2(k - w));
  }

  lemma LowPowerShows(x: int, k: nat, w: nat)
    requires k < w
    ensures (x + Pow2(k)) % Pow2(w) != x % Pow2(w)
  {
    Monotone(w - 1, k);
    SmallShows(x, Pow2(w), Pow2(k));
  }

  lemma TrimIsMod(s: Space, x: int)
    ensures Trim(s, U64(x)) == x % Pow2(8 * AddrBytes(s))
  {
    Widths();
    TrimWraps(s, x);
  }

  /** Below -SlebBound a displacement takes so many bytes that its sign does not matter. */
  function SlebBound(s: Space): int {
    if s.addrSize == Four then 0x800_0000 else 0x4000_0000_0000_0000
  }

  lemma LongEnoughIff(s: Space, d: int)
    requires d < 0
    ensures 7 * |EncodeSleb(d)| >= 8 * AddrBytes(s) <==> d < -SlebBound(s)
  {
    Widths();
    var k: nat := if s.addrSize == Four then 4 else 9;
    SlebLength(d, k);
    assert Pow2(27 + 5) == 32 * Pow2(27) && Pow2(62 + 2) == 4 * Pow2(62);
  }

  lemma MisreadIsNotZero(d: int)
    requires InRange(d, -TWO_63, TWO_63) && d != 0
    ensures Misread(d) != 0
  {
    MisreadSleb(d);
    WordIsPow2();
    if d > 0 {
      WordStays(d);
    } else {
      var k := 7 * |EncodeSleb(d)|;
      SlebLength(d, |EncodeSleb(d)|);
      if k < WORD_BITS {
        Monotone(WORD_BITS, k);
        WordStays(d + Pow2(k));
      } else {
        HighPowerHides(d, k, WORD_BITS);
        ModUnique(d, TWO_64, -1, d + TWO_64);
      }
    }
  }

  /** The word the unsigned reader makes of a signed encoding. */
  function Misread(d: int): word {
    U64(Payload(EncodeSleb(d)))
  }

  lemma MisreadAt(s: Space, a: word, d: int)
    requires Bounded(s) && Holds(s, a, EncodeSleb(d))
    ensures RawAt(s, a, PE_SLEB128) == Pointer(Misread(d))
  {
    SlebMeans(d);
    ReadWhole(s, a, EncodeSleb(d));
  }

  lemma SameTargetIsMod(s: Space, base: word, raw: int, d: int)
    ensures SameTarget(s, base, U64(raw), d) <==> SameMod(base + raw, base + d, 8 * AddrBytes(s))
  {
    SumOfWords(base, raw);
    TrimIsMod(s, base + raw);
    TrimIsMod(s, base + d);
  }

  ghost predicate SameMod(x: int, y: int, w: nat) {
    x % Pow2(w) == y % Pow2(w)
  }

  lemma PowerHidesIff(x: int, k: nat, w: nat)
    ensures SameMod(x + Pow2(k), x, w) <==> k >= w
  {
    if k >= w {
      HighPowerHides(x, k, w);
    } else {
      LowPowerShows(x, k, w);
    }
  }

  lemma SameTargetIff(s: Space, base: word, d: int, k: nat)
    ensures SameTarget(s, base, U64(d + Pow2(k)), d) <==> k >= 8 * AddrBytes(s)
  {
    SameTargetIsMod(s, base, d + Pow2(k), d);
    PowerHidesIff(base + d, k, 8 * AddrBytes(s));
    assert base + (d + Pow2(k)) == base + d + Pow2(k);
  }

  lemma MisreadSameIff(s: Space, base: word, d: int)
    ensures SameTarget(s, base, Misread(d), d) <==> d >= 0 || d < -SlebBound(s)
  {
    MisreadSleb(d);
    if d < 0 {
      LongEnoughIff(s, d);
      SameTargetIff(s, base, d, 7 * |EncodeSleb(d)|);
    } else {
      SumOfWords(base, d);
    }
  }

  /** A signed LEB128 displacement comes back exactly when it is not negative, or too negative for its bytes to lack a bit. */
  lemma SlebPointerIff(s: Space, a: word, encoding: byte, pi: ProcInfo, d: int, p: word)
    requires Bounded(s) && NamesBase(encoding) && encoding % 0x10 == 9
    requires InRange(d, -TWO_63, TWO_63) && d != 0 && Holds(s, a, EncodeSleb(d))
    requires p == Wrapped(s, Origin(encoding, a, pi) + d)
    ensures PointerAt(s, a, encoding, pi) == Pointer(p) <==> d >= 0 || d < -SlebBound(s)
  {
    MisreadAt(s, a, d);
    MisreadIsNotZero(d);
    ReadsTargetIff(s, a, encoding, pi, Misread(d), d, p);
    MisreadSameIff(s, Origin(encoding, a, pi), d);
  }
}
