/**
 The reader of /proc/PID/maps: lines are taken from a buffer that is refilled
 from the file in chunks the kernel chooses.
 */
module MapsReader {
  import opened Machine
  import opened MapsText

  // ----- lines -----

  /** The length of the text up to its first newline. */
  function LineEnd(t: string): (e: nat)
    ensures e <= |t|
    ensures e < |t| ==> t[e] == '\n'
  {
    if t == "" || t[0] == '\n' then 0 else 1 + LineEnd(t[1..])
  }

  /** Every line ends in a newline and fits a buffer of the size with it; no character is NUL. */
  predicate Fits(input: string, size: nat) {
    input != "" ==>
      var e := LineEnd(input);
      e < |input| && e < size && !HasNul(input[..e]) && Fits(input[e + 1..], size)
  }

  predicate HasNul(t: string) {
    exists i :: 0 <= i < |t| && t[i] == '\0'
  }

  predicate HasNewline(t: string) {
    LineEnd(t) < |t|
  }

  /** How a line is read; maps_next's own way is EntryOf. */
  type Parser = string -> Option<Entry>

  /** The entries of the well-formed lines, in order. */
  function Entries(parse: Parser, input: string): seq<Entry>
    decreases |input|
  {
    var e := LineEnd(input);
    if e == |input| then []
    else
      var rest := Entries(parse, input[e + 1..]);
      match parse(input[..e])
      case None => rest
      case Some(entry) => [entry] + rest
  }

  /** The first well-formed line and what comes after it. */
  function FirstEntry(parse: Parser, input: string): Option<(Entry, string)>
    decreases |input|
  {
    var e := LineEnd(input);
    if e == |input| then None
    else
      match parse(input[..e])
      case None => FirstEntry(parse, input[e + 1..])
      case Some(entry) => Some((entry, input[e + 1..]))
  }

  lemma {:induction false} FirstOfEntries(parse: Parser, input: string)
    ensures match FirstEntry(parse, input)
      case None => Entries(parse, input) == []
      case Some(first) => Entries(parse, input) == [first.0] + Entries(parse, first.1) && |first.1| < |input|
    decreases |input|
  {
    var e := LineEnd(input);
    if e < |input| && parse(input[..e]).None? {
      FirstOfEntries(parse, input[e + 1..]);
    }
  }

  lemma {:induction false} FitsAfterFirst(parse: Parser, input: string, size: nat)
    requires Fits(input, size) && FirstEntry(parse, input).Some?
    ensures Fits(FirstEntry(parse, input).value.1, size)
    decreases |input|
  {
    var e := LineEnd(input);
    if parse(input[..e]).None? {
      FitsAfterFirst(parse, input[e + 1..], size);
    }
  }

  /** What one line adds to the entries, and what is left fits as well. */
  lemma LineStep(parse: Parser, input: string, size: nat, r: Option<Entry>)
    requires Fits(input, size) && HasNewline(input) && r == parse(input[..LineEnd(input)])
    ensures Fits(input[LineEnd(input) + 1..], size)
    ensures r == None ==> FirstEntry(parse, input) == FirstEntry(parse, input[LineEnd(input) + 1..])
    ensures r.Some? ==> FirstEntry(parse, input) == Some((r.value, input[LineEnd(input) + 1..]))
  {
  }

  lemma {:induction false} FitsNoNul(input: string, size: nat)
    requires Fits(input, size)
    ensures !HasNul(input)
  {
    if input != "" {
      var e := LineEnd(input);
      FitsNoNul(input[e + 1..], size);
      assert input == input[..e] + [input[e]] + input[e + 1..];
    }
  }

  lemma NoNulInFront(p: string, t: string)
    requires !HasNul(p + t)
    ensures !HasNul(p)
  {
    forall i | 0 <= i < |p| ensures p[i] != '\0' {
      assert (p + t)[i] == p[i];
    }
  }

  /** The file that prints the entries, one line each. */
  function FileText(lines: seq<(Entry, Layout)>): string {
    if lines == [] then "" else LineText(lines[0].0, lines[0].1) + ("\n" + FileText(lines[1..]))
  }

  function EntriesOf(lines: seq<(Entry, Layout)>): seq<Entry> {
    if lines == [] then [] else [lines[0].0] + EntriesOf(lines[1..])
  }

  /** A line that can be printed, and stays one line. */
  predicate OneLine(line: (Entry, Layout)) {
    Printable(line.0, line.1) && !HasNewline(LineText(line.0, line.1))
  }

  /** A whole printed file reads back as the entries printed. */
  lemma {:induction false} FileRoundTrip(lines: seq<(Entry, Layout)>)
    requires forall i :: 0 <= i < |lines| ==> OneLine(lines[i])
    ensures Entries(EntryOf, FileText(lines)) == EntriesOf(lines)
  {
    if lines != [] {
      var line := lines[0];
      assert OneLine(line);
      FileRoundTrip(lines[1..]);
      LineRoundTrip(line.0, line.1);
      EntriesCons(EntryOf, LineText(line.0, line.1), FileText(lines[1..]), line.0);
    }
  }

  lemma EntriesCons(parse: Parser, line: string, after: string, e: Entry)
    requires !HasNewline(line) && parse(line) == Some(e)
    ensures Entries(parse, line + ("\n" + after)) == [e] + Entries(parse, after)
  {
    FirstLine(line, after);
  }

  /** The text of lines, each with its newline. */
  function Joined(lines: seq<string>): string {
    if lines == [] then "" else lines[0] + ("\n" + Joined(lines[1..]))
  }

  /** What the lines parse to, those that parse. */
  function Parsed(parse: Parser, lines: seq<string>): seq<Entry> {
    if lines == [] then []
    else
      match parse(lines[0])
      case None => Parsed(parse, lines[1..])
      case Some(e) => [e] + Parsed(parse, lines[1..])
  }

  /** Any lines give the entries of those that are well formed, in order; the others are passed over. */
  lemma {:induction false} EntriesOfLines(parse: Parser, lines: seq<string>)
    requires forall i :: 0 <= i < |lines| ==> !HasNewline(lines[i])
    ensures Entries(parse, Joined(lines)) == Parsed(parse, lines)
  {
    if lines != [] {
      FirstLine(lines[0], Joined(lines[1..]));
      EntriesOfLines(parse, lines[1..]);
    }
  }

  lemma FirstLine(line: string, after: string)
    requires !HasNewline(line)
    ensures var all := line + ("\n" + after);
      LineEnd(all) == |line| && |line| < |all| && all[..|line|] == line && all[|line| + 1..] == after
  {
    LineEndAfter(line, "\n" + after);
  }

  /** What one read may return: all that was asked for, or a chunk with a newline in it, or nothing at the end. */
  predicate MayRead(file: string, n: nat, k: nat) {
    && k <= n && k <= |file|
    && (k == n || HasNewline(file[..k]) || (file == "" && k == 0))
  }

  lemma {:induction false} LineEndAfter(p: string, t: string)
    requires !HasNewline(p)
    ensures LineEnd(p + t) == |p| + LineEnd(t)
  {
    if p == "" {
      assert p + t == t;
    } else {
      LineEndAfter(p[1..], t);
      assert (p + t)[1..] == p[1..] + t;
    }
  }

  lemma {:induction false} LineEndBefore(p: string, t: string)
    requires HasNewline(p)
    ensures LineEnd(p + t) == LineEnd(p)
  {
    if p[0] != '\n' {
      LineEndBefore(p[1..], t);
      assert (p + t)[1..] == p[1..] + t;
    }
  }

  /** The end of the first line, told by the characters alone. */
  lemma {:induction false} LineEndUnique(t: string, e: nat)
    requires e <= |t| && (e < |t| ==> t[e] == '\n') && forall i :: 0 <= i < e ==> t[i] != '\n'
    ensures LineEnd(t) == e
  {
    if e > 0 {
      LineEndUnique(t[1..], e - 1);
    }
  }

  /** A line begun in the buffer ends in the next chunk, wherever that chunk is cut. */
  lemma ChunkEndsLine(p: string, file: string, size: nat)
    requires !HasNewline(p) && Fits(p + file, size)
    ensures file == "" ==> p == ""
    ensures file != "" ==> |p| + LineEnd(file) < size && HasNewline(file)
  {
    LineEndAfter(p, file);
  }

  lemma ChunkHasNewline(p: string, file: string, size: nat, k: nat)
    requires !HasNewline(p) && Fits(p + file, size) && file != "" && |p| <= size
    requires MayRead(file, size - |p|, k)
    ensures k > 0 && HasNewline(file[..k])
  {
    ChunkEndsLine(p, file, size);
    assert file == file[..k] + file[k..];
    if !HasNewline(file[..k]) {
      LineEndAfter(file[..k], file[k..]);
    }
  }

  lemma Rejoin(p: string, file: string, k: nat)
    requires k <= |file|
    ensures p + file == p + file[..k] + file[k..]
  {
  }

  lemma SecondPart(all: string, pos: nat, p: string, chunk: string)
    requires pos <= |all| && all[pos..] == p + chunk
    ensures pos + |p| <= |all| && all[pos + |p|..] == chunk
  {
    assert all[pos + |p|..] == all[pos..][|p|..];
  }

  // ----- the reader -----

  class MapIterator {
    const buf: array<char>
    var pos: nat
    var unread: string

    ghost predicate Valid()
      reads this
    {
      pos <= buf.Length && buf.Length > 0
    }

    /** The input not yet taken: all of the buffer from pos on, then the rest of the file. */
    ghost function Pending(): string
      reads this, buf
      requires Valid()
    {
      buf[pos..] + unread
    }

    constructor (size: nat, file: string)
      requires size > 0
      ensures Valid() && fresh(buf) && buf.Length == size && Pending() == file
    {
      buf := new char[size];
      pos := size;
      unread := file;
      new;
      assert buf[pos..] == "";
    }

    /** The read system call, as the kernel may choose to answer it. */
    method Read(at: nat, n: nat) returns (k: nat)
      requires at + n == buf.Length && n > 0
      requires unread == "" || |unread| >= n || HasNewline(unread)
      modifies this`unread, buf
      ensures MayRead(old(unread), n, k)
      ensures unread == old(unread)[k..]
      ensures buf[..at] == old(buf[..at]) && buf[at..at + k] == old(unread)[..k]
    {
      ghost var w := if |unread| >= n then n else |unread|;
      assert unread[..|unread|] == unread;
      assert MayRead(unread, n, w);
      k :| 0 <= k <= n && k <= |unread| && MayRead(unread, n, k);
      forall i | 0 <= i < k {
        buf[at + i] := unread[i];
      }
      unread := unread[k..];
    }

    /** memmove within the buffer. */
    method Move(to: nat, from: nat, n: nat)
      requires to + n <= buf.Length && from + n <= buf.Length
      modifies buf
      ensures forall i :: to <= i < to + n ==> buf[i] == old(buf[from + (i - to)])
    {
      forall i | to <= i < to + n {
        buf[i] := buf[from + (i - to)];
      }
    }

    /** Copy the bytes left, if any, to the front of the buffer. */
    method CopyDown() returns (left: nat)
      requires Valid()
      modifies this`pos, buf
      ensures pos == 0 && left == |old(buf[pos..])| && buf[..left] == old(buf[pos..])
    {
      left := buf.Length - pos;
      if left > 0 {
        Move(0, pos, left);
      }
      pos := 0;
    }

    /** Put the m bytes at the front where nothing but the end of the buffer comes after them. */
    method ShiftUp(m: nat)
      requires Valid() && pos == 0 && m <= buf.Length
      modifies this`pos, buf
      ensures Valid() && pos == buf.Length - m && buf[pos..] == old(buf[..m])
    {
      if m < buf.Length {
        Move(buf.Length - m, 0, m);
        pos := buf.Length - m;
      }
    }

    /** The first newline of a range of the buffer. */
    method FindNewline(from: nat, to: nat) returns (eol: Option<nat>)
      requires from <= to <= buf.Length
      ensures eol == if HasNewline(buf[from..to]) then Some(from + LineEnd(buf[from..to])) else None
    {
      for i := from to to
        invariant forall k :: from <= k < i ==> buf[k] != '\n'
      {
        if buf[i] == '\n' {
          LineEndUnique(buf[from..to], i - from);
          return Some(i);
        }
      }
      eol := None;
    }

    /** The first newline in the bytes left, unless a NUL comes before it. */
    method FindEol() returns (eol: Option<nat>)
      requires Valid()
      ensures !HasNul(buf[pos..]) ==>
        eol == if HasNewline(buf[pos..]) then Some(pos + LineEnd(buf[pos..])) else None
    {
      for i := pos to buf.Length
        invariant forall k :: pos <= k < i ==> buf[k] != '\n'
      {
        if buf[i] == '\n' {
          LineEndUnique(buf[pos..], i - pos);
          return Some(i);
        } else if buf[i] == '\0' {
          assert buf[pos..][i - pos] == '\0';
          return None;
        }
      }
      eol := None;
    }

    /**
     Move the bytes left to the front, read what follows them, and move both to
     the end if they do not fill the buffer. At the end of the file the buffer
     is left stale.
     */
    method Refill() returns (eol: Option<nat>)
      requires Valid() && !HasNewline(buf[pos..]) && Fits(Pending(), buf.Length)
      modifies this, buf
      ensures Valid()
      ensures eol.None? ==> old(Pending()) == ""
      ensures eol.Some? ==>
        && Pending() == old(Pending())
        && HasNewline(buf[pos..]) && eol.value == pos + LineEnd(buf[pos..])
    {
      ghost var p, file := buf[pos..], unread;
      ChunkEndsLine(p, file, buf.Length);
      var left, k := Fetch();
      if k == 0 {
        return None;
      }
      ghost var chunk := file[..k];
      ChunkHasNewline(p, file, buf.Length, k);
      ShiftUp(left + k);
      Rejoin(p, file, k);
      var e := FindInChunk(left, p, chunk);
      eol := Some(e);
    }

    /** The bytes left and then a chunk of the file, at the front of the buffer. */
    method Fetch() returns (left: nat, k: nat)
      requires Valid() && pos > 0
      requires unread == "" || HasNewline(unread)
      modifies this, buf
      ensures Valid() && pos == 0 && left == |old(buf[pos..])| && left + k <= buf.Length
      ensures MayRead(old(unread), buf.Length - left, k) && unread == old(unread)[k..]
      ensures buf[..left + k] == old(buf[pos..]) + old(unread)[..k]
    {
      left := CopyDown();
      k := Read(left, buf.Length - left);
      assert buf[..left + k] == buf[..left] + buf[left..left + k];
    }

    /** The end of the line that the bytes left begin and the chunk after them ends. */
    method FindInChunk(left: nat, ghost p: string, ghost chunk: string) returns (eol: int)
      requires Valid() && buf[pos..] == p + chunk && |p| == left
      requires !HasNewline(p) && HasNewline(chunk)
      ensures HasNewline(buf[pos..]) && eol == pos + LineEnd(buf[pos..])
    {
      LineEndAfter(p, chunk);
      SecondPart(buf[..], pos, p, chunk);
      assert buf[pos..] == buf[..][pos..] && buf[pos + left..buf.Length] == buf[..][pos + left..];
      var last := buf.Length - 1;
      var found := FindNewline(pos + left, buf.Length);
      if found.Some? {
        last := found.value;
      }
      eol := last;
    }

    /** Where the next line ends, if the input has one; the bytes left then hold all of it. */
    method NextEol() returns (eol: Option<nat>)
      requires Valid() && Fits(Pending(), buf.Length)
      modifies this, buf
      ensures Valid()
      ensures eol.None? ==> old(Pending()) == ""
      ensures eol.Some? ==>
        && Pending() == old(Pending())
        && HasNewline(buf[pos..]) && eol.value == pos + LineEnd(buf[pos..])
    {
      FitsNoNul(Pending(), buf.Length);
      NoNulInFront(buf[pos..], unread);
      eol := FindEol();
      if eol.None? {
        eol := Refill();
      }
    }

    /** Take the line that ends at eol out of the buffer; the newline becomes its NUL. */
    method TakeLine(eol: nat) returns (line: string)
      requires Valid() && HasNewline(buf[pos..]) && eol == pos + LineEnd(buf[pos..])
      modifies this, buf
      ensures Valid()
      ensures var e := LineEnd(old(Pending()));
        && e < |old(Pending())| && line == old(Pending())[..e] && Pending() == old(Pending())[e + 1..]
    {
      LineEndBefore(buf[pos..], unread);
      line := buf[pos..eol];
      pos := eol + 1;
      buf[eol] := '\0';
    }

    /** Read one line: None at the end of the input, Some(None) for a line that is not well formed. */
    method NextLine() returns (r: Option<Option<Entry>>)
      requires Valid() && Fits(Pending(), buf.Length)
      modifies this, buf
      ensures Valid()
      ensures r == None ==> old(Pending()) == ""
      ensures r != None ==> Fits(Pending(), buf.Length) && |Pending()| < |old(Pending())|
      ensures r == Some(None) ==> FirstEntry(EntryOf, old(Pending())) == FirstEntry(EntryOf, Pending())
      ensures r.Some? && r.value.Some? ==> FirstEntry(EntryOf, old(Pending())) == Some((r.value.value, Pending()))
    {
      var eol := NextEol();
      if eol.None? {
        return None;
      }
      var line := TakeLine(eol.value);
      var entry := ScanLine(line);
      LineStep(EntryOf, old(Pending()), buf.Length, entry);
      r := Some(entry);
    }

    /** maps_next: the entry of the next well-formed line, or 0 when there is none. */
    method Next() returns (r: Option<Entry>)
      requires Valid() && Fits(Pending(), buf.Length)
      modifies this, buf
      ensures Valid()
      ensures match FirstEntry(EntryOf, old(Pending()))
        case None => r == None
        case Some(first) => r == Some(first.0) && Pending() == first.1
    {
      while true
        invariant Valid() && Fits(Pending(), buf.Length)
        invariant FirstEntry(EntryOf, Pending()) == FirstEntry(EntryOf, old(Pending()))
        decreases |Pending()|
      {
        var line := NextLine();
        if line.None? {
          return None;
        }
        if line.value.Some? {
          return line.value;
        }
      }
    }
  }

  /** The entries taken so far, with those still to come, are those of the file. */
  ghost predicate ReadSoFar(parse: Parser, taken: seq<Entry>, pending: string, file: string) {
    forall es :: Lists(parse, es, pending) ==> Lists(parse, taken + es, file)
  }

  ghost predicate Lists(parse: Parser, es: seq<Entry>, input: string) {
    es == Entries(parse, input)
  }

  lemma ReadOne(parse: Parser, taken: seq<Entry>, pending: string, file: string, size: nat)
    requires ReadSoFar(parse, taken, pending, file) && Fits(pending, size)
    ensures match FirstEntry(parse, pending)
      case None => taken == Entries(parse, file)
      case Some(first) =>
        && ReadSoFar(parse, taken + [first.0], first.1, file) && Fits(first.1, size) && |first.1| < |pending|
  {
    FirstOfEntries(parse, pending);
    match FirstEntry(parse, pending)
    case None =>
      assert Lists(parse, [], pending);
      assert taken + [] == taken;
    case Some(first) =>
      FitsAfterFirst(parse, pending, size);
      forall es | Lists(parse, es, first.1) ensures Lists(parse, taken + [first.0] + es, file) {
        assert Lists(parse, [first.0] + es, pending);
        assert taken + ([first.0] + es) == taken + [first.0] + es;
      }
  }

  /** One call of maps_next in the course of reading a file. */
  method ReadNext(it: MapIterator, ghost taken: seq<Entry>, ghost file: string) returns (e: Option<Entry>)
    requires it.Valid() && Fits(it.Pending(), it.buf.Length) && ReadSoFar(EntryOf, taken, it.Pending(), file)
    modifies it, it.buf
    ensures it.Valid()
    ensures e.None? ==> taken == Entries(EntryOf, file)
    ensures e.Some? ==>
      && Fits(it.Pending(), it.buf.Length) && |it.Pending()| < |old(it.Pending())|
      && ReadSoFar(EntryOf, taken + [e.value], it.Pending(), file)
  {
    ReadOne(EntryOf, taken, it.Pending(), file, it.buf.Length);
    e := it.Next();
  }

  /** Call maps_next until it returns 0. */
  method ReadAll(file: string, size: nat) returns (entries: seq<Entry>)
    requires size > 0 && Fits(file, size)
    ensures entries == Entries(EntryOf, file)
  {
    var it := new MapIterator(size, file);
    entries := [];
    while true
      invariant it.Valid() && it.buf.Length == size && fresh(it) && fresh(it.buf)
      invariant Fits(it.Pending(), size) && ReadSoFar(EntryOf, entries, it.Pending(), file)
      decreases |it.Pending()|
    {
      var e := ReadNext(it, entries, file);
      if e.None? {
        return;
      }
      entries := entries + [e.value];
    }
  }
}
