/**
 The .ARM.exidx index table (section 5 of IHI 0038): finding the entry of an
 instruction pointer, and extracting the entry's unwind bytecode.
 */
module ExidxSearch {
  import opened Machine

  /** access_mem: the words that can be read, by address. */
  type Memory = map<word32, word32>

  const CANT_UNWIND: word32 := 1
  const COMPACT: int := 0x8000_0000
  const FINISH: byte := 0xb0

  /** The low 31 bits as a signed offset. */
  function Prel31(w: word32): int {
    var v := w % 0x8000_0000;
    if v >= 0x4000_0000 then v - 0x8000_0000 else v
  }

  /** prel31_to_addr: a place-relative word made absolute. */
  function Prel31ToAddr(mem: Memory, place: word32): Option<word32> {
    if place in mem then Some(U32(place + Prel31(mem[place]))) else None
  }

  /** Storing an address place-relatively and reading it back, for targets within a gigabyte. */
  lemma Prel31RoundTrip(mem: Memory, place: word32, target: word32, flag: bool)
    requires -0x4000_0000 <= target - place < 0x4000_0000
    requires place in mem
    requires mem[place] == (target - place) % 0x8000_0000 + if flag then COMPACT else 0
    ensures Prel31ToAddr(mem, place) == Some(target)
  {
    var d := target - place;
    assert d % 0x8000_0000 == if d >= 0 then d else d + 0x8000_0000;
    assert mem[place] % 0x8000_0000 == d % 0x8000_0000;
    assert Prel31(mem[place]) == d;
  }

  // ----- the table -----

  /** A table of n 8-byte entries that does not wrap around the address space. */
  predicate IsTable(table: word32, n: nat) {
    n > 0 && table + 8 * n <= TWO_32
  }

  function EntryAt(table: word32, n: nat, i: nat): word32
    requires IsTable(table, n) && i < n
  {
    table + 8 * i
  }

  predicate Readable(mem: Memory, table: word32, n: nat)
    requires IsTable(table, n)
  {
    forall i :: 0 <= i < n ==> EntryAt(table, n, i) in mem
  }

  /** The function start an entry names. */
  function Start(mem: Memory, table: word32, n: nat, i: nat): word32
    requires IsTable(table, n) && Readable(mem, table, n) && i < n
  {
    Prel31ToAddr(mem, EntryAt(table, n, i)).value
  }

  ghost predicate Sorted(mem: Memory, table: word32, n: nat)
    requires IsTable(table, n) && Readable(mem, table, n)
  {
    forall i, j :: 0 <= i <= j < n ==> Start(mem, table, n, i) <= Start(mem, table, n, j)
  }

  /** Entry i covers ip: it starts at or before it and the next entry, if any, after it. */
  predicate Covers(mem: Memory, table: word32, n: nat, i: nat, ip: word32)
    requires IsTable(table, n) && Readable(mem, table, n) && i < n
  {
    Start(mem, table, n, i) <= ip && (i + 1 < n ==> ip < Start(mem, table, n, i + 1))
  }

  /** In a sorted table at most one entry covers an ip. */
  lemma CoverIsUnique(mem: Memory, table: word32, n: nat, i: nat, j: nat, ip: word32)
    requires IsTable(table, n) && Readable(mem, table, n) && Sorted(mem, table, n)
    requires i < n && j < n && i != j && Covers(mem, table, n, i, ip)
    ensures !Covers(mem, table, n, j, ip)
  {
    if i < j {
      assert Start(mem, table, n, i + 1) <= Start(mem, table, n, j);
    } else {
      assert Start(mem, table, n, j + 1) <= Start(mem, table, n, i);
    }
  }

  datatype Status = Ok | NoInfo | Invalid

  datatype ProcInfo = ProcInfo(startIp: word32, endIp: int, entry: word32)

  /** The range the search reports for entry i. */
  function InfoOf(mem: Memory, table: word32, n: nat, i: nat, endIp: word32): ProcInfo
    requires IsTable(table, n) && Readable(mem, table, n) && i < n
  {
    ProcInfo(Start(mem, table, n, i),
             (if i + 1 < n then Start(mem, table, n, i + 1) else endIp) - 1,
             EntryAt(table, n, i))
  }

  /**
   arm_search_unwind_table up to the choice of the entry.  On a readable sorted
   table it finds the entry that covers ip, and fails exactly when ip precedes them all.
   */
  method Search(mem: Memory, table: word32, tableLen: nat, endIp: word32, ip: word32)
    returns (status: Status, pi: ProcInfo, ghost i: nat)
    requires tableLen % 8 == 0 && IsTable(table, tableLen / 8)
    ensures var n := tableLen / 8;
      Readable(mem, table, n) && Sorted(mem, table, n) ==>
        if ip < Start(mem, table, n, 0) then status == NoInfo
        else
          && status == Ok && i < n && Covers(mem, table, n, i, ip)
          && pi == InfoOf(mem, table, n, i, endIp)
          && pi.entry == table + 8 * i && Prel31ToAddr(mem, pi.entry) == Some(pi.startIp)
          && (if i == n - 1 then pi.endIp == endIp - 1 else Prel31ToAddr(mem, pi.entry + 8) == Some(pi.endIp + 1))
          && (ip < endIp ==> pi.startIp <= ip <= pi.endIp)
    ensures !Readable(mem, table, tableLen / 8) && status == Ok ==> pi.entry in mem
  {
    ghost var n := tableLen / 8;
    ghost var lo, hi := 0, n - 1;
    i := 0;
    pi := ProcInfo(0, 0, table);
    var first: int, last: int := table, table + tableLen - 8;
    assert first == EntryAt(table, n, lo) && last == EntryAt(table, n, hi);
    var val := Prel31ToAddr(mem, first);
    if val == None || ip < val.value {
      return NoInfo, pi, i;
    }
    val := Prel31ToAddr(mem, last);
    if val == None {
      return Invalid, pi, i;
    }
    if ip >= val.value {
      i := hi;
      return Ok, ProcInfo(val.value, endIp - 1, last), i;
    }
    while first < last - 8
      invariant 0 <= lo < hi < n
      invariant first == EntryAt(table, n, lo) && last == EntryAt(table, n, hi)
      invariant first in mem && last in mem
      invariant Prel31ToAddr(mem, first).value <= ip < Prel31ToAddr(mem, last).value
      decreases last - first
    {
      var mid := first + ((last - first) / 8 + 1) / 2 * 8;
      ghost var m := lo + (hi - lo + 1) / 2;
      assert (last - first) / 8 == hi - lo;
      assert mid == EntryAt(table, n, m);
      val := Prel31ToAddr(mem, mid);
      if val == None {
        return Invalid, pi, i;
      }
      if ip < val.value {
        last, hi := mid, m;
      } else {
        first, lo := mid, m;
      }
    }
    i := lo;
    assert hi == lo + 1;
    var start := Prel31ToAddr(mem, first);
    var end := Prel31ToAddr(mem, first + 8);
    if start == None || end == None {
      return Invalid, pi, i;
    }
    return Ok, ProcInfo(start.value, end.value - 1, first), i;
  }

  // ----- the personality routine -----

  /** Where the entry's word sends the unwinder: to an exception-table entry of the generic model, or nowhere. */
  function GenericTable(mem: Memory, entry: word32): Option<word32> {
    var place := U32(entry + 4);
    if place !in mem || mem[place] == CANT_UNWIND || mem[place] >= COMPACT then None
    else
      var extab := Prel31ToAddr(mem, place).value;
      if extab in mem && mem[extab] < COMPACT then Some(extab) else None
  }

  /** The personality routine and the LSDA of an index entry. */
  method Personality(mem: Memory, entry: word32) returns (handler: Option<word32>, lsda: Option<word32>)
    ensures lsda == GenericTable(mem, entry)
    ensures handler == if lsda.Some? then Prel31ToAddr(mem, lsda.value) else None
  {
    handler, lsda := None, None;
    var place := U32(entry + 4);
    if place in mem {
      var data := mem[place];
      if data != CANT_UNWIND && data < COMPACT {
        var extab := Prel31ToAddr(mem, place).value;
        if extab in mem && mem[extab] < COMPACT {
          handler := Prel31ToAddr(mem, extab);
          lsda := Some(extab);
        }
      }
    }
  }

  /** A word that holds a target place-relatively, without the compact flag. */
  predicate PointsTo(mem: Memory, place: word32, target: word32) {
    && -0x4000_0000 <= target - place < 0x4000_0000
    && place in mem && mem[place] == (target - place) % 0x8000_0000
  }

  /** The layout of the generic model: the index names the table entry, whose first word names the routine. */
  lemma PersonalityIsFound(mem: Memory, entry: word32, extab: word32, routine: word32)
    requires PointsTo(mem, U32(entry + 4), extab) && mem[U32(entry + 4)] != CANT_UNWIND
    requires PointsTo(mem, extab, routine)
    ensures GenericTable(mem, entry) == Some(extab) && Prel31ToAddr(mem, extab) == Some(routine)
  {
    Prel31RoundTrip(mem, U32(entry + 4), extab, false);
    Prel31RoundTrip(mem, extab, routine, false);
  }

  // ----- extracting the bytecode -----

  /** The bytes of a word, most significant first. */
  function WordBytes(w: word32): (b: seq<byte>)
    ensures |b| == 4
  {
    [w / 0x100_0000, w / 0x1_0000 % 0x100, w / 0x100 % 0x100, w % 0x100]
  }

  function WordOf(b: seq<byte>): word32
    requires |b| == 4
  {
    (b[0] as int) * 0x100_0000 + (b[1] as int) * 0x1_0000 + (b[2] as int) * 0x100 + b[3] as int
  }

  lemma WordBytesInvert(b: seq<byte>)
    requires |b| == 4
    ensures WordBytes(WordOf(b)) == b
  {
    var w := WordOf(b);
    var b0: int, b1: int, b2: int := b[0], b[1], b[2];
    assert w / 0x100_0000 == b0;
    assert w / 0x1_0000 == b0 * 0x100 + b1;
    assert w / 0x100 == (b0 * 0x100 + b1) * 0x100 + b2;
  }

  datatype Extracted = Code(bytes: seq<byte>) | CantUnwind | Unreadable | TooLong

  /** The bytes of k words from addr, none if one of them cannot be read. */
  function TableBytes(mem: Memory, addr: word32, k: nat): Option<seq<byte>>
    decreases k
  {
    if k == 0 then Some([])
    else if addr !in mem then None
    else
      match TableBytes(mem, U32(addr + 4), k - 1)
      case None => None
      case Some(rest) => Some(WordBytes(mem[addr]) + rest)
  }

  function WithFinish(code: seq<byte>): seq<byte> {
    if code != [] && code[|code| - 1] != FINISH then code + [FINISH] else code
  }

  /** The head bytes and the table words of an exception-table entry. */
  function ExtractTable(mem: Memory, head: seq<byte>, addr: word32, k: nat): Extracted {
    if k > 5 then TooLong
    else
      match TableBytes(mem, addr, k)
      case None => Unreadable
      case Some(rest) => Code(WithFinish(head + rest))
  }

  /** arm_exidx_extract; TooLong is its failing assertion. */
  function Extract(mem: Memory, entry: word32): Extracted {
    if entry !in mem || U32(entry + 4) !in mem then Unreadable
    else
      var data := mem[U32(entry + 4)];
      if data == CANT_UNWIND then CantUnwind
      else if data >= COMPACT then Code(WithFinish(WordBytes(data)[1..]))
      else
        var extab := Prel31ToAddr(mem, U32(entry + 4)).value;
        if extab !in mem then Unreadable
        else
          var w := mem[extab];
          if w >= COMPACT then
            var pers := w / 0x100_0000 % 16;
            if pers == 1 || pers == 2 then
              ExtractTable(mem, WordBytes(w)[2..], U32(extab + 4), w / 0x1_0000 % 0x100)
            else
              ExtractTable(mem, WordBytes(w)[1..], extab, 0)
          else if U32(extab + 4) !in mem then Unreadable
          else
            var w1 := mem[U32(extab + 4)];
            ExtractTable(mem, WordBytes(w1)[1..], U32(extab + 8), w1 / 0x100_0000)
  }

  const UNW_ESTOPUNWIND: int := 5
  const UNW_EINVAL: int := 8

  /** Append one word's bytes to the buffer. */
  method PutWord(buf: array<byte>, nbuf: nat, w: word32)
    requires nbuf + 4 <= buf.Length
    modifies buf
    ensures buf[..nbuf + 4] == old(buf[..nbuf]) + WordBytes(w)
  {
    buf[nbuf] := w / 0x100_0000;
    buf[nbuf + 1] := w / 0x1_0000 % 0x100;
    buf[nbuf + 2] := w / 0x100 % 0x100;
    buf[nbuf + 3] := w % 0x100;
  }

  function Joined(done: seq<byte>, rest: Option<seq<byte>>): Option<seq<byte>> {
    match rest
    case None => None
    case Some(r) => Some(done + r)
  }

  lemma JoinsNothing(rest: Option<seq<byte>>)
    ensures Joined([], rest) == rest
  {
    assert rest.Some? ==> [] + rest.value == rest.value;
  }

  lemma JoinsWord(done: seq<byte>, w: seq<byte>, rest: Option<seq<byte>>)
    ensures Joined(done, Joined(w, rest)) == Joined(done + w, rest)
  {
    assert rest.Some? ==> done + (w + rest.value) == done + w + rest.value;
  }

  lemma TableUnfolds(mem: Memory, at: word32, k: nat, done: seq<byte>, done': seq<byte>)
    requires k > 0 && at in mem && done' == done + WordBytes(mem[at])
    ensures Joined(done, TableBytes(mem, at, k)) == Joined(done', TableBytes(mem, U32(at + 4), k - 1))
  {
    JoinsWord(done, WordBytes(mem[at]), TableBytes(mem, U32(at + 4), k - 1));
  }

  /** The tail of arm_exidx_extract: the head bytes are in buf, k table words follow at addr. */
  method AppendTable(mem: Memory, buf: array<byte>, nhead: nat, addr: word32, k: nat) returns (nbuf: int)
    requires 2 <= nhead <= 3 && buf.Length >= 24 && k <= 5
    modifies buf
    ensures match ExtractTable(mem, old(buf[..nhead]), addr, k)
      case Code(bytes) => nbuf == |bytes| && nbuf <= buf.Length && buf[..nbuf] == bytes
      case _ => nbuf == -UNW_EINVAL
  {
    ghost var head, done: seq<byte> := buf[..nhead], [];
    var n, at := nhead, addr;
    JoinsNothing(TableBytes(mem, addr, k));
    for j := 0 to k
      invariant n == nhead + 4 * j
      invariant buf[..n] == head + done
      invariant TableBytes(mem, addr, k) == Joined(done, TableBytes(mem, at, k - j))
    {
      if at !in mem {
        return -UNW_EINVAL;
      }
      var next := U32(at as int + 4);
      ghost var done' := done + WordBytes(mem[at]);
      TableUnfolds(mem, at, k - j, done, done');
      PutWord(buf, n, mem[at]);
      assert head + done + WordBytes(mem[at]) == head + done';
      done := done';
      at := next;
      n := n + 4;
    }
    assert done + [] == done;
    assert ExtractTable(mem, head, addr, k) == Code(WithFinish(head + done));
    nbuf := Terminate(buf, n);
  }

  /** Append FINISH unless it is there. */
  method Terminate(buf: array<byte>, n: nat) returns (nbuf: nat)
    requires 0 < n < buf.Length
    modifies buf
    ensures nbuf == |WithFinish(old(buf[..n]))| && nbuf <= buf.Length
    ensures buf[..nbuf] == WithFinish(old(buf[..n]))
  {
    nbuf := n;
    if buf[n - 1] != FINISH {
      buf[n] := FINISH;
      nbuf := n + 1;
    }
  }

  /** The bytes of an entry's first word that are bytecode. */
  method PutHead(buf: array<byte>, w: word32, skip: nat)
    requires 1 <= skip <= 2 && buf.Length >= 24
    modifies buf
    ensures buf[..4 - skip] == WordBytes(w)[skip..]
  {
    var n := 0;
    if skip == 1 {
      buf[0] := w / 0x1_0000 % 0x100;
      n := 1;
    }
    buf[n] := w / 0x100 % 0x100;
    buf[n + 1] := w % 0x100;
  }

  /** arm_exidx_extract */
  method ExtractInto(mem: Memory, entry: word32, buf: array<byte>) returns (nbuf: int)
    requires buf.Length >= 24 && Extract(mem, entry) != TooLong
    modifies buf
    ensures match Extract(mem, entry)
      case Code(bytes) => nbuf == |bytes| && nbuf <= buf.Length && buf[..nbuf] == bytes
      case CantUnwind => nbuf == -5
      case Unreadable => nbuf == -8
  {
    if Prel31ToAddr(mem, entry) == None || U32(entry + 4) !in mem {
      return -UNW_EINVAL;
    }
    var data: int := mem[U32(entry + 4)];
    if data == CANT_UNWIND {
      return -UNW_ESTOPUNWIND;
    }
    if data >= COMPACT {
      PutHead(buf, data, 1);
      nbuf := AppendTable(mem, buf, 3, 0, 0);
      return;
    }
    var extab: int := Prel31ToAddr(mem, U32(entry + 4)).value;
    if extab !in mem {
      return -UNW_EINVAL;
    }
    data := mem[extab];
    if data >= COMPACT {
      var pers := data / 0x100_0000 % 0x10;
      if pers == 1 || pers == 2 {
        PutHead(buf, data, 2);
        nbuf := AppendTable(mem, buf, 2, U32(extab + 4), data / 0x1_0000 % 0x100);
      } else {
        PutHead(buf, data, 1);
        nbuf := AppendTable(mem, buf, 3, extab, 0);
      }
    } else {
      if U32(extab + 4) !in mem {
        return -UNW_EINVAL;
      }
      data := mem[U32(extab + 4)];
      PutHead(buf, data, 1);
      nbuf := AppendTable(mem, buf, 3, U32(extab + 8), data / 0x100_0000);
    }
  }

  lemma {:induction false} TableBytesLength(mem: Memory, addr: word32, k: nat)
    ensures TableBytes(mem, addr, k).Some? ==> |TableBytes(mem, addr, k).value| == 4 * k
    decreases k
  {
    if k > 0 {
      TableBytesLength(mem, U32(addr + 4), k - 1);
    }
  }

  lemma TableEndsInFinish(mem: Memory, head: seq<byte>, addr: word32, k: nat)
    requires 2 <= |head| <= 3 && ExtractTable(mem, head, addr, k).Code?
    ensures var code := ExtractTable(mem, head, addr, k).bytes;
      2 <= |code| <= 24 && code[|code| - 1] == FINISH
  {
    TableBytesLength(mem, addr, k);
  }

  /** What is extracted is never empty, ends in FINISH, and fits the 32-byte buffer of the caller. */
  lemma ExtractedEndsInFinish(mem: Memory, entry: word32)
    requires Extract(mem, entry).Code?
    ensures var code := Extract(mem, entry).bytes;
      2 <= |code| <= 24 && code[|code| - 1] == FINISH
  {
    var data: int := mem[U32(entry + 4)];
    if data < COMPACT {
      var extab: int := Prel31ToAddr(mem, U32(entry + 4)).value;
      var w: int := mem[extab];
      var pers := w / 0x100_0000 % 16;
      if w < COMPACT {
        var w1: int := mem[U32(extab + 4)];
        TableEndsInFinish(mem, WordBytes(w1)[1..], U32(extab + 8), w1 / 0x100_0000);
      } else if pers == 1 || pers == 2 {
        TableEndsInFinish(mem, WordBytes(w)[2..], U32(extab + 4), w / 0x1_0000 % 0x100);
      } else {
        TableEndsInFinish(mem, WordBytes(w)[1..], extab, 0);
      }
    }
  }

  /** Memory holds the bytes as words from addr. */
  predicate WordsHold(mem: Memory, addr: word32, bytes: seq<byte>)
    requires |bytes| % 4 == 0
    decreases |bytes|
  {
    bytes == [] ||
    (addr in mem && mem[addr] == WordOf(bytes[..4]) && WordsHold(mem, U32(addr + 4), bytes[4..]))
  }

  lemma {:induction false} HeldBytesAreRead(mem: Memory, addr: word32, bytes: seq<byte>, k: nat)
    requires |bytes| == 4 * k && WordsHold(mem, addr, bytes)
    ensures TableBytes(mem, addr, k) == Some(bytes)
    decreases k
  {
    if k > 0 {
      HeldBytesAreRead(mem, U32(addr + 4), bytes[4..], k - 1);
      WordBytesInvert(bytes[..4]);
      assert bytes[..4] + bytes[4..] == bytes;
    }
  }

  /** Three bytes of bytecode inlined in the index table, below a byte with the compact flag. */
  predicate StoredInline(mem: Memory, entry: word32, pers: byte, code: seq<byte>) {
    && entry in mem && U32(entry + 4) in mem
    && |code| == 3 && pers >= 0x80 && mem[U32(entry + 4)] == WordOf([pers] + code)
  }

  /** The index names a word with the compact flag and another personality: three bytes. */
  predicate StoredShort(mem: Memory, entry: word32, extab: word32, pers: byte, code: seq<byte>) {
    && Names(mem, entry, extab)
    && pers >= 0x80 && pers % 16 != 1 && pers % 16 != 2 && |code| == 3
    && mem[extab] == WordOf([pers] + code)
  }

  /** The index names a word with the compact flag, personality 1 or 2: two bytes and up to five more words. */
  predicate StoredCompact(mem: Memory, entry: word32, extab: word32, pers: byte, code: seq<byte>, k: nat) {
    && Names(mem, entry, extab)
    && pers >= 0x80 && (pers % 16 == 1 || pers % 16 == 2) && k <= 5 && |code| == 4 * k + 2
    && mem[extab] == WordOf([pers, k] + code[..2])
    && WordsHold(mem, U32(extab + 4), code[2..])
  }

  /** The index names a personality routine's word, and a word follows with three bytes and up to five more words. */
  predicate StoredGeneric(mem: Memory, entry: word32, extab: word32, code: seq<byte>, k: nat) {
    && Names(mem, entry, extab) && mem[extab] < 0x8000_0000
    && U32(extab + 4) in mem && k <= 5 && |code| == 4 * k + 3
    && mem[U32(extab + 4)] == WordOf([k] + code[..3])
    && WordsHold(mem, U32(extab + 8), code[3..])
  }

  /** The entry's second word leads to an exception-table entry. */
  predicate Names(mem: Memory, entry: word32, extab: word32) {
    && entry in mem && U32(entry + 4) in mem && extab in mem
    && mem[U32(entry + 4)] != 1 && mem[U32(entry + 4)] < 0x8000_0000
    && Prel31ToAddr(mem, U32(entry + 4)) == Some(extab)
  }

  /** The bytes are extracted: all of them, and the FINISH opcode 0xb0 unless they end in it. */
  ghost predicate IsExtracted(mem: Memory, entry: word32, code: seq<byte>)
    requires code != []
  {
    Extract(mem, entry) == Code(if code[|code| - 1] == 0xb0 then code else code + [0xb0])
  }

  /** The two highest bytes of a stored word, as the code takes them out. */
  lemma HeadOfWord(w: word32, b: seq<byte>)
    requires |b| == 4 && w == WordOf(b)
    ensures WordBytes(w) == b && w / 0x100_0000 == b[0] && w / 0x1_0000 % 0x100 == b[1]
    ensures w >= COMPACT <==> b[0] >= 0x80
  {
    WordBytesInvert(b);
    assert WordBytes(w)[0] == b[0] && WordBytes(w)[1] == b[1];
  }

  lemma InlineRoundTrip(mem: Memory, entry: word32, pers: byte, code: seq<byte>)
    requires StoredInline(mem, entry, pers, code)
    ensures IsExtracted(mem, entry, code)
  {
    HeadOfWord(mem[U32(entry + 4)], [pers] + code);
    assert ([pers] + code)[1..] == code;
  }

  lemma ShortRoundTrip(mem: Memory, entry: word32, extab: word32, pers: byte, code: seq<byte>)
    requires StoredShort(mem, entry, extab, pers, code)
    ensures IsExtracted(mem, entry, code) && GenericTable(mem, entry) == None
  {
    HeadOfWord(mem[extab], [pers] + code);
    assert ([pers] + code)[1..] == code;
    assert code + [] == code;
    assert ExtractTable(mem, code, extab, 0) == Code(WithFinish(code));
  }

  lemma CompactRoundTrip(mem: Memory, entry: word32, extab: word32, pers: byte, code: seq<byte>, k: nat)
    requires StoredCompact(mem, entry, extab, pers, code, k)
    ensures IsExtracted(mem, entry, code) && GenericTable(mem, entry) == None
  {
    var head := [pers, k] + code[..2];
    HeadOfWord(mem[extab], head);
    assert head[2..] == code[..2];
    HeldBytesAreRead(mem, U32(extab + 4), code[2..], k);
    assert code[..2] + code[2..] == code;
    assert ExtractTable(mem, code[..2], U32(extab + 4), k) == Code(WithFinish(code));
  }

  lemma GenericRoundTrip(mem: Memory, entry: word32, extab: word32, code: seq<byte>, k: nat)
    requires StoredGeneric(mem, entry, extab, code, k)
    ensures IsExtracted(mem, entry, code) && GenericTable(mem, entry) == Some(extab)
  {
    var head := [k] + code[..3];
    HeadOfWord(mem[U32(extab + 4)], head);
    assert head[1..] == code[..3];
    HeldBytesAreRead(mem, U32(extab + 8), code[3..], k);
    assert code[..3] + code[3..] == code;
    assert ExtractTable(mem, code[..3], U32(extab + 8), k) == Code(WithFinish(code));
  }

  /** The bytecode of an entry, in whichever of the four ways it is stored. */
  ghost predicate Stored(mem: Memory, entry: word32, code: seq<byte>) {
    || (exists pers :: StoredInline(mem, entry, pers, code))
    || (exists extab, pers :: StoredShort(mem, entry, extab, pers, code))
    || (exists extab, pers, k :: StoredCompact(mem, entry, extab, pers, code, k))
    || (exists extab, k :: StoredGeneric(mem, entry, extab, code, k))
  }

  lemma StoredIsExtracted(mem: Memory, entry: word32, code: seq<byte>)
    requires Stored(mem, entry, code)
    ensures code != [] && IsExtracted(mem, entry, code)
  {
    if pers :| StoredInline(mem, entry, pers, code) {
      InlineRoundTrip(mem, entry, pers, code);
    } else if extab, pers :| StoredShort(mem, entry, extab, pers, code) {
      ShortRoundTrip(mem, entry, extab, pers, code);
    } else if extab, pers, k :| StoredCompact(mem, entry, extab, pers, code, k) {
      CompactRoundTrip(mem, entry, extab, pers, code, k);
    } else {
      var extab, k :| StoredGeneric(mem, entry, extab, code, k);
      GenericRoundTrip(mem, entry, extab, code, k);
    }
  }

  /** An entry is marked as not to be unwound by a second word of 1, and by nothing else. */
  lemma CantUnwindIff(mem: Memory, entry: word32)
    ensures Extract(mem, entry) == CantUnwind <==> entry in mem && U32(entry + 4) in mem && mem[U32(entry + 4)] == 1
    ensures Extract(mem, entry) == CantUnwind ==> GenericTable(mem, entry) == None
  {
  }
}
