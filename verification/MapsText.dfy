/**
 The text of /proc/PID/maps: the scanners, a whole line, its printed form, and
 the decimal writer. A pointer into a NUL-terminated string is the text from
 there on; the empty text is the NUL.
 */
module MapsText {
  import opened Machine
  import opened Bits

  const HEX: nat := 16
  const DEC: nat := 10

  // ----- digits -----

  function DigitValue(c: char): (d: nat) {
    if '0' <= c <= '9' then c as int - '0' as int
    else if 'A' <= c <= 'F' then c as int - 'A' as int + 10
    else if 'a' <= c <= 'f' then c as int - 'a' as int + 10
    else 0xff
  }

  predicate IsDigit(c: char, base: nat) {
    DigitValue(c) < base
  }

  predicate IsBase(base: nat) {
    base == HEX || base == DEC
  }

  /** The character at the pointer. */
  function First(t: string): char {
    if t == "" then '\0' else t[0]
  }

  predicate IsBlank(c: char) {
    c == ' ' || c == '\t'
  }

  function SkipBlanks(t: string): string {
    if t != "" && IsBlank(t[0]) then SkipBlanks(t[1..]) else t
  }

  /** The number of digits the text starts with. */
  function DigitRun(t: string, base: nat): (k: nat)
    ensures k <= |t|
  {
    if t != "" && IsDigit(t[0], base) then 1 + DigitRun(t[1..], base) else 0
  }

  function Numeral(t: string, base: nat): nat {
    if t == "" then 0 else base * Numeral(t[..|t| - 1], base) + DigitValue(t[|t| - 1])
  }

  // ----- what the scanners should do -----

  datatype Scanned<T> = Scanned(rest: Option<string>, value: T)

  /** Blanks, then a number of at least one digit, kept to 64 bits. */
  function NumberIn(cp: Option<string>, base: nat, was: word): Scanned<word> {
    if cp.None? then Scanned(None, was)
    else
      var t := SkipBlanks(cp.value);
      var k := DigitRun(t, base);
      if k == 0 then Scanned(None, was) else Scanned(Some(t[k..]), U64(Numeral(t[..k], base)))
  }

  function CharIn(cp: Option<string>, was: char): Scanned<char> {
    if cp.None? then Scanned(None, was)
    else Scanned(Some(if cp.value == "" then "" else cp.value[1..]), First(cp.value))
  }

  function WordRun(t: string): (k: nat)
    ensures k <= |t|
  {
    if t != "" && !IsBlank(t[0]) && t[0] != '\0' then 1 + WordRun(t[1..]) else 0
  }

  function Min(a: int, b: int): int {
    if a < b then a else b
  }

  /** Blanks, then a word, of which as much is kept as the buffer holds. */
  function WordIn(cp: Option<string>, size: nat, was: string): Scanned<string>
    requires size > 0
  {
    if cp.None? then Scanned(None, was)
    else
      var t := SkipBlanks(cp.value);
      var k := WordRun(t);
      var kept := Min(k, size - 1);
      Scanned(if kept == 0 then None else Some(t[k..]), t[..kept])
  }

  // ----- the scanners -----

  method SkipWhitespace(cp: Option<string>) returns (r: Option<string>)
    ensures r == if cp.None? then None else Some(SkipBlanks(cp.value))
  {
    if cp.None? {
      return None;
    }
    var t := cp.value;
    while t != "" && IsBlank(t[0])
      invariant SkipBlanks(t) == SkipBlanks(cp.value)
      decreases |t|
    {
      t := t[1..];
    }
    r := Some(t);
  }

  /** The digits taken so far, the text left, and the value of what was taken. */
  ghost predicate Taken(t: string, n: nat, rest: string, val: word, base: nat) {
    && n <= |t| && rest == t[n..]
    && DigitRun(t, base) == n + DigitRun(rest, base)
    && val == U64(Numeral(t[..n], base))
  }

  lemma TakeDigit(t: string, n: nat, rest: string, val: word, base: nat)
    requires Taken(t, n, rest, val, base) && rest != "" && IsDigit(rest[0], base) && IsBase(base)
    ensures Taken(t, n + 1, rest[1..], U64(base * val + DigitValue(rest[0])), base)
  {
    assert t[..n + 1][..n] == t[..n];
    var m := Numeral(t[..n], base);
    ModUnique(base * m + DigitValue(t[n]), TWO_64,
      base * (m / TWO_64) + (base * val + DigitValue(t[n])) / TWO_64, U64(base * val + DigitValue(t[n])));
  }

  const NIBBLE: nat := 4

  lemma OrDigit(val: word, d: nat)
    requires d < HEX
    ensures Or(U64(Shl(val, NIBBLE)), d) == U64(HEX * val + d)
  {
    WordIsPow2();
    assert Pow2(NIBBLE) == HEX;
    OrBelow(val, d, NIBBLE, WORD_BITS);
  }

  method ScanHex(cp: Option<string>, was: word) returns (rest: Option<string>, value: word)
    ensures Scanned(rest, value) == NumberIn(cp, HEX, was)
  {
    var start := SkipWhitespace(cp);
    if start.None? {
      return None, was;
    }
    var t := start.value;
    var n := 0;
    var val: word := 0;
    while t != "" && IsDigit(t[0], HEX)
      invariant Taken(start.value, n, t, val, HEX)
      decreases |t|
    {
      TakeDigit(start.value, n, t, val, HEX);
      OrDigit(val, DigitValue(t[0]));
      val := Or(U64(Shl(val, NIBBLE)), DigitValue(t[0]));
      n := n + 1;
      t := t[1..];
    }
    if n == 0 {
      return None, was;
    }
    return Some(t), val;
  }

  method ScanDec(cp: Option<string>, was: word) returns (rest: Option<string>, value: word)
    ensures Scanned(rest, value) == NumberIn(cp, DEC, was)
  {
    var start := SkipWhitespace(cp);
    if start.None? {
      return None, was;
    }
    var t := start.value;
    var n := 0;
    var val: word := 0;
    while t != "" && IsDigit(t[0], DEC)
      invariant Taken(start.value, n, t, val, DEC)
      decreases |t|
    {
      TakeDigit(start.value, n, t, val, DEC);
      val := U64(DEC * val + DigitValue(t[0]));
      n := n + 1;
      t := t[1..];
    }
    if n == 0 {
      return None, was;
    }
    return Some(t), val;
  }

  method ScanChar(cp: Option<string>, was: char) returns (rest: Option<string>, value: char)
    ensures Scanned(rest, value) == CharIn(cp, was)
  {
    if cp.None? {
      return None, was;
    }
    value := First(cp.value);
    rest := Some(if cp.value == "" then "" else cp.value[1..]);
  }

  method ScanString(cp: Option<string>, size: nat, was: string) returns (rest: Option<string>, value: string)
    requires size > 0
    ensures Scanned(rest, value) == WordIn(cp, size, was)
  {
    var start := SkipWhitespace(cp);
    if start.None? {
      return None, was;
    }
    var t := start.value;
    var n := 0;
    value := "";
    while t != "" && !IsBlank(t[0]) && t[0] != '\0'
      invariant n <= |start.value| && t == start.value[n..]
      invariant WordRun(start.value) == n + WordRun(t)
      invariant value == start.value[..Min(n, size - 1)]
      decreases |t|
    {
      if |value| < size - 1 {
        value := value + [t[0]];
      }
      t := t[1..];
      n := n + 1;
    }
    rest := if |value| == 0 then None else Some(t);
  }

  // ----- a line -----

  datatype Access = Access(read: bool, write: bool, exec: bool)

  datatype Entry = Entry(low: word, high: word, offset: word, access: Access, path: string)

  const PERM_SIZE: nat := 16

  function Letter(t: string, i: nat): char {
    if i < |t| then t[i] else '\0'
  }

  function AccessOf(perm: string): Access {
    Access(Letter(perm, 0) == 'r', Letter(perm, 1) == 'w', Letter(perm, 2) == 'x')
  }

  /** What follows the permissions: offset, device and inode. */
  datatype Place = Place(offset: word, colon: char, rest: Option<string>)

  function PlaceIn(cp: Option<string>): Place {
    var offset := NumberIn(cp, HEX, 0);
    var major := NumberIn(offset.rest, HEX, 0);
    var colon := CharIn(major.rest, '\0');
    var minor := NumberIn(colon.rest, HEX, 0);
    var inode := NumberIn(minor.rest, DEC, 0);
    Place(offset.value, colon.value, inode.rest)
  }

  /** The entry a line describes, if it is well formed: "low-high perm offset major:minor inode path". */
  function EntryOf(line: string): Option<Entry> {
    var low := NumberIn(Some(line), HEX, 0);
    var dash := CharIn(low.rest, '\0');
    var high := NumberIn(dash.rest, HEX, 0);
    var perm := WordIn(high.rest, PERM_SIZE, "");
    var place := PlaceIn(perm.rest);
    if place.rest.None? || dash.value != '-' || place.colon != ':' then None
    else Some(Entry(low.value, high.value, place.offset, AccessOf(perm.value), SkipBlanks(place.rest.value)))
  }

  method ScanPlace(cp: Option<string>) returns (place: Place)
    ensures place == PlaceIn(cp)
  {
    var p, offset := ScanHex(cp, 0);
    var major: word;
    p, major := ScanHex(p, 0);
    var colon: char;
    p, colon := ScanChar(p, '\0');
    var minor: word;
    p, minor := ScanHex(p, 0);
    var inode: word;
    p, inode := ScanDec(p, 0);
    place := Place(offset, colon, p);
  }

  method ScanLine(line: string) returns (e: Option<Entry>)
    ensures e == EntryOf(line)
  {
    var p, low := ScanHex(Some(line), 0);
    var dash: char;
    p, dash := ScanChar(p, '\0');
    var high: word;
    p, high := ScanHex(p, 0);
    var perm: string;
    p, perm := ScanString(p, PERM_SIZE, "");
    var place := ScanPlace(p);
    var path := SkipWhitespace(place.rest);
    if path.None? {
      return None;
    }
    if dash != '-' || place.colon != ':' {
      return None;
    }
    return Some(Entry(low, high, place.offset, AccessOf(perm), path.value));
  }

  // ----- the printed form -----

  function DigitChar(d: nat): char
    requires d < HEX
  {
    if d < 10 then ('0' as int + d) as char else ('a' as int + (d - 10)) as char
  }

  /** The digits of n, most significant first. */
  function Digits(n: nat, base: nat): (t: string)
    requires IsBase(base)
    ensures t != ""
  {
    if n < base then [DigitChar(n)] else Digits(n / base, base) + [DigitChar(n % base)]
  }

  /** n in hexadecimal, with zeros in front up to a width. */
  function Hex(n: nat, width: nat): string
  {
    if width <= |Digits(n, HEX)| then Digits(n, HEX) else Zeros(width - |Digits(n, HEX)|) + Digits(n, HEX)
  }

  function Zeros(k: nat): string {
    if k == 0 then "" else Zeros(k - 1) + "0"
  }

  predicate AllDigits(t: string, base: nat) {
    forall i :: 0 <= i < |t| ==> IsDigit(t[i], base)
  }

  predicate AllBlank(t: string) {
    forall i :: 0 <= i < |t| ==> IsBlank(t[i])
  }

  /** Blanks that do separate. */
  predicate IsGap(t: string) {
    t != "" && AllBlank(t)
  }

  /** What a line prints besides the entry, and how: field widths and gaps. */
  datatype Layout = Layout(shared: bool, major: word, minor: word, inode: word,
                           addrWidth: nat, offsetWidth: nat, devWidth: nat,
                           gap: string, pathGap: string)

  function PermText(a: Access, shared: bool): string {
    [if a.read then 'r' else '-', if a.write then 'w' else '-', if a.exec then 'x' else '-', if shared then 's' else 'p']
  }

  function PlaceText(e: Entry, l: Layout): string {
    l.gap + (Hex(e.offset, l.offsetWidth) +
    (l.gap + (Hex(l.major, l.devWidth) + (":" + (Hex(l.minor, l.devWidth) +
    (l.gap + (Digits(l.inode, DEC) + (l.pathGap + e.path))))))))
  }

  function LineText(e: Entry, l: Layout): string {
    Hex(e.low, l.addrWidth) + ("-" + (Hex(e.high, l.addrWidth) + (l.gap + (PermText(e.access, l.shared) + PlaceText(e, l)))))
  }

  /** Gaps separate, and the path is kept off the inode and does not start blank. */
  predicate Printable(e: Entry, l: Layout) {
    && IsGap(l.gap) && AllBlank(l.pathGap)
    && (e.path != "" ==> l.pathGap != "" && !IsBlank(e.path[0]))
  }

  // ----- the round trip -----

  lemma {:induction false} DigitsMean(n: nat, base: nat)
    requires IsBase(base)
    ensures AllDigits(Digits(n, base), base) && Numeral(Digits(n, base), base) == n
  {
    var t := Digits(n, base);
    assert DigitValue(DigitChar(n % base)) == n % base;
    if n < base {
      assert Numeral(t[..0], base) == 0;
    } else {
      DigitsMean(n / base, base);
      assert t[..|t| - 1] == Digits(n / base, base);
    }
  }

  lemma {:induction false} ZerosInFront(k: nat, t: string)
    ensures Numeral(Zeros(k) + t, HEX) == Numeral(t, HEX)
    ensures AllDigits(t, HEX) ==> AllDigits(Zeros(k) + t, HEX)
  {
    if t != "" {
      ZerosInFront(k, t[..|t| - 1]);
      assert (Zeros(k) + t)[..|Zeros(k) + t| - 1] == Zeros(k) + t[..|t| - 1];
    } else if k > 0 {
      ZerosInFront(k - 1, "");
      assert Zeros(k) + t == Zeros(k);
      assert Zeros(k - 1) + "" == Zeros(k - 1);
      assert Zeros(k)[..|Zeros(k)| - 1] == Zeros(k - 1);
    } else {
      assert Zeros(k) + t == t;
    }
  }

  lemma HexMeans(n: nat, width: nat)
    ensures AllDigits(Hex(n, width), HEX) && Numeral(Hex(n, width), HEX) == n && Hex(n, width) != ""
  {
    DigitsMean(n, HEX);
    if width > |Digits(n, HEX)| {
      ZerosInFront(width - |Digits(n, HEX)|, Digits(n, HEX));
    }
  }

  lemma {:induction false} SkipsGap(gap: string, t: string)
    requires AllBlank(gap) && (t != "" ==> !IsBlank(t[0]))
    ensures SkipBlanks(gap + t) == t
  {
    if gap == "" {
      assert gap + t == t;
    } else {
      SkipsGap(gap[1..], t);
      assert (gap + t)[1..] == gap[1..] + t;
    }
  }

  lemma {:induction false} RunOfDigits(t: string, rest: string, base: nat)
    requires AllDigits(t, base) && (rest != "" ==> !IsDigit(rest[0], base))
    ensures DigitRun(t + rest, base) == |t|
  {
    if t == "" {
      assert t + rest == rest;
    } else {
      RunOfDigits(t[1..], rest, base);
      assert (t + rest)[1..] == t[1..] + rest;
    }
  }

  /** A number after blanks is read whole, up to what cannot belong to it. */
  lemma ReadsNumber(gap: string, t: string, rest: string, base: nat, n: word)
    requires IsBase(base) && AllBlank(gap) && t != "" && AllDigits(t, base) && Numeral(t, base) == n
    requires rest != "" ==> !IsDigit(rest[0], base)
    ensures NumberIn(Some(gap + (t + rest)), base, 0) == Scanned(Some(rest), n)
  {
    SkipsGap(gap, t + rest);
    RunOfDigits(t, rest, base);
    WordStays(n);
  }

  lemma {:induction false} RunOfWord(t: string, rest: string)
    requires forall i :: 0 <= i < |t| ==> !IsBlank(t[i]) && t[i] != '\0'
    requires rest != "" ==> IsBlank(rest[0])
    ensures WordRun(t + rest) == |t|
  {
    if t == "" {
      assert t + rest == rest;
    } else {
      RunOfWord(t[1..], rest);
      assert (t + rest)[1..] == t[1..] + rest;
    }
  }

  lemma ReadsPerm(gap: string, a: Access, shared: bool, rest: string)
    requires AllBlank(gap) && (rest != "" ==> IsBlank(rest[0]))
    ensures WordIn(Some(gap + (PermText(a, shared) + rest)), PERM_SIZE, "") == Scanned(Some(rest), PermText(a, shared))
    ensures AccessOf(PermText(a, shared)) == a
  {
    SkipsGap(gap, PermText(a, shared) + rest);
    RunOfWord(PermText(a, shared), rest);
  }

  lemma ReadsHexThen(gap: string, n: word, width: nat, rest: string)
    requires AllBlank(gap) && (rest != "" ==> !IsDigit(rest[0], HEX))
    ensures NumberIn(Some(gap + (Hex(n, width) + rest)), HEX, 0) == Scanned(Some(rest), n)
  {
    HexMeans(n, width);
    ReadsNumber(gap, Hex(n, width), rest, HEX, n);
  }

  lemma ReadsHex(n: word, width: nat, rest: string)
    requires rest != "" ==> !IsDigit(rest[0], HEX)
    ensures NumberIn(Some(Hex(n, width) + rest), HEX, 0) == Scanned(Some(rest), n)
  {
    ReadsHexThen("", n, width, rest);
    assert "" + (Hex(n, width) + rest) == Hex(n, width) + rest;
  }

  lemma ReadsChar(c: char, rest: string)
    ensures CharIn(Some([c] + rest), '\0') == Scanned(Some(rest), c)
  {
    assert ([c] + rest)[1..] == rest;
  }

  lemma GapFirst(gap: string, rest: string)
    requires IsGap(gap)
    ensures gap + rest != "" && IsBlank((gap + rest)[0]) && !IsDigit((gap + rest)[0], HEX)
  {
  }

  lemma PlaceRoundTrip(e: Entry, l: Layout)
    requires Printable(e, l)
    ensures PlaceIn(Some(PlaceText(e, l))) == Place(e.offset, ':', Some(l.pathGap + e.path))
  {
    var end := l.pathGap + e.path;
    var inode := l.gap + (Digits(l.inode, DEC) + end);
    var minor := Hex(l.minor, l.devWidth) + inode;
    var major := l.gap + (Hex(l.major, l.devWidth) + (":" + minor));
    GapFirst(l.gap, Hex(l.major, l.devWidth) + (":" + minor));
    ReadsHexThen(l.gap, e.offset, l.offsetWidth, major);
    ReadsHexThen(l.gap, l.major, l.devWidth, ":" + minor);
    ReadsChar(':', minor);
    GapFirst(l.gap, Digits(l.inode, DEC) + end);
    ReadsHex(l.minor, l.devWidth, inode);
    DigitsMean(l.inode, DEC);
    ReadsNumber(l.gap, Digits(l.inode, DEC), end, DEC, l.inode);
  }

  /** Parsing undoes printing, whatever the widths, gaps, device and inode. */
  lemma LineRoundTrip(e: Entry, l: Layout)
    requires Printable(e, l)
    ensures EntryOf(LineText(e, l)) == Some(e)
  {
    var place := PlaceText(e, l);
    var perm := l.gap + (PermText(e.access, l.shared) + place);
    var high := Hex(e.high, l.addrWidth) + perm;
    GapFirst(l.gap, Hex(e.offset, l.offsetWidth));
    GapFirst(l.gap, PermText(e.access, l.shared) + place);
    ReadsHex(e.low, l.addrWidth, "-" + high);
    ReadsChar('-', high);
    ReadsHex(e.high, l.addrWidth, perm);
    ReadsPerm(l.gap, e.access, l.shared, place);
    PlaceRoundTrip(e, l);
    SkipsGap(l.pathGap, e.path);
  }

  // ----- writing a decimal number -----

  /** The text backwards. */
  function Backwards(t: string): (r: string)
    ensures |r| == |t|
    ensures forall i :: 0 <= i < |t| ==> r[i] == t[|t| - 1 - i]
  {
    if t == "" then "" else Backwards(t[1..]) + [t[0]]
  }

  lemma {:induction false} BackwardsAppends(t: string, c: char)
    ensures Backwards(t + [c]) == [c] + Backwards(t)
  {
    if t == "" {
      assert Backwards([c]) == Backwards([c][1..]) + [c];
    } else {
      BackwardsAppends(t[1..], c);
      assert (t + [c])[1..] == t[1..] + [c];
    }
  }

  /** The digits written so far, last first, complete the digits of what is left. */
  ghost predicate Written(val: nat, left: nat, w: string) {
    Digits(val, DEC) == (if left == 0 && w != "" then "" else Digits(left, DEC)) + Backwards(w)
  }

  lemma WriteDigit(val: nat, left: nat, w: string)
    requires Written(val, left, w) && (left > 0 || w == "")
    ensures Written(val, left / DEC, w + [DigitChar(left % DEC)])
  {
    var c := DigitChar(left % DEC);
    BackwardsAppends(w, c);
    if left >= DEC {
      assert Digits(left, DEC) == Digits(left / DEC, DEC) + [c];
      assert Digits(left / DEC, DEC) + [c] + Backwards(w) == Digits(left / DEC, DEC) + ([c] + Backwards(w));
    } else {
      assert Digits(left, DEC) == [c];
      assert "" + ([c] + Backwards(w)) == [c] + Backwards(w);
    }
  }

  lemma RoomForDigit(val: nat, left: nat, w: string)
    requires Written(val, left, w) && (left > 0 || w == "")
    ensures |w| < |Digits(val, DEC)|
  {
  }

  /** The digits of val from `start` on, last first. */
  method WriteBackwards(buf: array<char>, start: nat, val: nat) returns (end: nat)
    requires start + |Digits(val, DEC)| <= buf.Length
    modifies buf
    ensures start < end <= buf.Length && Written(val, 0, buf[start..end])
    ensures buf[..start] == old(buf[..start]) && buf[end..] == old(buf[end..])
  {
    ghost var was := buf[..];
    var left: nat := val;
    end := start;
    assert Digits(val, DEC) + Backwards("") == Digits(val, DEC);
    while end == start || left != 0
      invariant start <= end <= buf.Length && (end == start ==> left == val)
      invariant Written(val, left, buf[start..end])
      invariant forall k :: (0 <= k < start || end <= k < buf.Length) ==> buf[k] == was[k]
      decreases end == start, left
    {
      ghost var w := buf[start..end];
      RoomForDigit(val, left, w);
      WriteDigit(val, left, w);
      buf[end] := DigitChar(left % DEC);
      assert buf[start..end + 1] == w + [DigitChar(left % DEC)];
      left := left / DEC;
      end := end + 1;
    }
  }

  /** Swap the first half of a range with the second, character by character. */
  method ReverseInPlace(buf: array<char>, start: nat, end: nat)
    requires start <= end <= buf.Length
    modifies buf
    ensures buf[start..end] == Backwards(old(buf[start..end]))
    ensures buf[..start] == old(buf[..start]) && buf[end..] == old(buf[end..])
  {
    ghost var was := buf[..];
    for i := 0 to (end - start) / 2
      invariant forall k :: (start <= k < start + i || end - i <= k < end) ==> buf[k] == was[start + end - 1 - k]
      invariant forall k :: start + i <= k < end - i ==> buf[k] == was[k]
      invariant forall k :: (0 <= k < start || end <= k < buf.Length) ==> buf[k] == was[k]
    {
      buf[start + i], buf[end - 1 - i] := buf[end - 1 - i], buf[start + i];
    }
    RangeBackwards(buf[..], was, start, end);
    assert buf[start..end] == buf[..][start..end] && was[start..end] == old(buf[start..end]);
  }

  lemma RangeBackwards(now: string, was: string, start: nat, end: nat)
    requires start <= end <= |now| == |was|
    requires forall k :: start <= k < end ==> now[k] == was[start + end - 1 - k]
    ensures now[start..end] == Backwards(was[start..end])
  {
    forall k | 0 <= k < end - start ensures now[start..end][k] == Backwards(was[start..end])[k] {
      assert now[start + k] == was[end - 1 - k];
    }
  }

  /** unw_ltoa, for a number that is not negative: its decimal digits from `start` on, and nothing else changed. */
  method Ltoa(buf: array<char>, start: nat, val: nat) returns (end: nat)
    requires start + |Digits(val, DEC)| <= buf.Length
    modifies buf
    ensures end == start + |Digits(val, DEC)|
    ensures buf[start..end] == Digits(val, DEC)
    ensures buf[..start] == old(buf[..start]) && buf[end..] == old(buf[end..])
  {
    end := WriteBackwards(buf, start, val);
    ghost var w := buf[start..end];
    ReverseInPlace(buf, start, end);
    assert "" + Backwards(w) == Backwards(w);
  }

  /** Scanning what was written gives the number back. */
  lemma WrittenScansBack(val: word, rest: string)
    requires rest != "" ==> !IsDigit(rest[0], DEC)
    ensures NumberIn(Some(Digits(val, DEC) + rest), DEC, 0) == Scanned(Some(rest), val)
  {
    DigitsMean(val, DEC);
    ReadsNumber("", Digits(val, DEC), rest, DEC, val);
    assert "" + (Digits(val, DEC) + rest) == Digits(val, DEC) + rest;
  }
}
