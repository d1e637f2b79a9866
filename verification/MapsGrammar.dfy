/**
 The lines that the scanners accept, as a grammar: a line has an entry if and
 only if it can be cut into the pieces of one.
 */
module MapsGrammar {
  import opened Machine
  import opened Bits
  import opened MapsText

  /** The digits of both cases, and no other character. */
  lemma DigitsNamed(c: char, k: nat)
    requires k < 16
    ensures DigitValue(c) == k <==> c == "0123456789abcdef"[k] || c == "0123456789ABCDEF"[k]
    ensures IsDigit(c, 10) <==> '0' <= c <= '9'
    ensures k < 16 ==> DigitChar(k) == "0123456789abcdef"[k]
  {
  }

  predicate Blanks(t: string) {
    forall i :: 0 <= i < |t| ==> t[i] == ' ' || t[i] == '\t'
  }

  /** The text is blanks, digits worth v modulo 2^64, and the rest, which does not go on with a digit. */
  ghost predicate IsNumber(t: string, base: nat, v: word, rest: string) {
    exists gap, digits :: NumberPieces(t, gap, digits, rest, base) && v == Numeral(digits, base) % 0x1_0000_0000_0000_0000
  }

  predicate NumberPieces(t: string, gap: string, digits: string, rest: string, base: nat) {
    && t == gap + (digits + rest) && Blanks(gap) && digits != "" && AllDigits(digits, base)
    && (rest != "" ==> !IsDigit(rest[0], base))
  }

  lemma {:induction false} BlanksSkipped(t: string) returns (gap: string)
    ensures t == gap + SkipBlanks(t) && Blanks(gap)
    ensures SkipBlanks(t) != "" ==> !IsBlank(SkipBlanks(t)[0])
  {
    gap := "";
    if t != "" && IsBlank(t[0]) {
      var more := BlanksSkipped(t[1..]);
      gap := [t[0]] + more;
      assert t == [t[0]] + t[1..];
    }
  }

  lemma {:induction false} RunIsDigits(t: string, base: nat)
    ensures AllDigits(t[..DigitRun(t, base)], base)
    ensures DigitRun(t, base) < |t| ==> !IsDigit(t[DigitRun(t, base)], base)
  {
    if t != "" && IsDigit(t[0], base) {
      RunIsDigits(t[1..], base);
      var k := DigitRun(t[1..], base);
      assert t[..k + 1] == [t[0]] + t[1..][..k];
    }
  }

  lemma NumberFound(t: string, base: nat, v: word, rest: string)
    requires IsBase(base) && NumberIn(Some(t), base, 0) == Scanned(Some(rest), v)
    ensures IsNumber(t, base, v, rest)
  {
    var gap := BlanksSkipped(t);
    var u := SkipBlanks(t);
    var k := DigitRun(u, base);
    NumberCut(u, base);
    assert NumberPieces(t, gap, u[..k], rest, base);
  }

  /** A text that starts with a digit is its digits and the rest. */
  lemma NumberCut(u: string, base: nat)
    requires DigitRun(u, base) > 0
    ensures var digits, rest := u[..DigitRun(u, base)], u[DigitRun(u, base)..];
      && u == digits + rest && digits != "" && AllDigits(digits, base)
      && (rest != "" ==> !IsDigit(rest[0], base))
  {
    RunIsDigits(u, base);
  }

  lemma NumberRead(t: string, base: nat, v: word, rest: string)
    requires IsBase(base) && IsNumber(t, base, v, rest)
    ensures NumberIn(Some(t), base, 0) == Scanned(Some(rest), v)
  {
    var gap, digits :| NumberPieces(t, gap, digits, rest, base) && v == Numeral(digits, base) % 0x1_0000_0000_0000_0000;
    assert IsDigit(digits[0], base) && !IsBlank(digits[0]);
    assert AllBlank(gap);
    SkipsGap(gap, digits + rest);
    RunOfDigits(digits, rest, base);
  }

  /** The text is blanks, a word, and the rest, which starts with a blank or a NUL or is empty. */
  ghost predicate IsWord(t: string, w: string, rest: string) {
    exists gap :: WordPieces(t, gap, w, rest)
  }

  predicate EndsWord(c: char) {
    c == ' ' || c == '\t' || c == '\0'
  }

  predicate WordPieces(t: string, gap: string, w: string, rest: string) {
    && t == gap + (w + rest) && Blanks(gap) && w != ""
    && (forall i :: 0 <= i < |w| ==> !EndsWord(w[i]))
    && (rest != "" ==> EndsWord(rest[0]))
  }

  lemma {:induction false} RunIsWord(t: string)
    ensures forall i :: 0 <= i < WordRun(t) ==> !EndsWord(t[i])
    ensures WordRun(t) < |t| ==> EndsWord(t[WordRun(t)])
  {
    if t != "" && !EndsWord(t[0]) {
      RunIsWord(t[1..]);
      var k := WordRun(t[1..]);
      forall i | 0 <= i < k + 1 ensures !EndsWord(t[i]) {
        assert i > 0 ==> t[i] == t[1..][i - 1];
      }
    }
  }

  lemma {:induction false} WordRunOf(w: string, rest: string)
    requires forall i :: 0 <= i < |w| ==> !EndsWord(w[i])
    requires rest != "" ==> EndsWord(rest[0])
    ensures WordRun(w + rest) == |w|
  {
    if w == "" {
      assert w + rest == rest;
    } else {
      WordRunOf(w[1..], rest);
      assert (w + rest)[1..] == w[1..] + rest;
    }
  }

  lemma WordFound(t: string, value: string, rest: string) returns (w: string)
    requires WordIn(Some(t), 16, "") == Scanned(Some(rest), value)
    ensures IsWord(t, w, rest) && value == w[..Min(|w|, 15)]
  {
    var gap := BlanksSkipped(t);
    var u := SkipBlanks(t);
    var k := WordRun(u);
    w := u[..k];
    WordCut(u);
    assert WordPieces(t, gap, w, rest);
    assert u[..Min(k, 15)] == w[..Min(k, 15)];
  }

  lemma WordCut(u: string)
    ensures var k := WordRun(u); u == u[..k] + u[k..]
    ensures var w, rest := u[..WordRun(u)], u[WordRun(u)..];
      && (forall i :: 0 <= i < |w| ==> !EndsWord(w[i])) && (rest != "" ==> EndsWord(rest[0]))
  {
    RunIsWord(u);
  }

  lemma WordRead(t: string, w: string, rest: string)
    requires IsWord(t, w, rest)
    ensures WordIn(Some(t), 16, "") == Scanned(Some(rest), w[..Min(|w|, 15)])
  {
    var gap :| WordPieces(t, gap, w, rest);
    assert AllBlank(gap) && !IsBlank(w[0]);
    SkipsGap(gap, w + rest);
    WordRunOf(w, rest);
    assert (w + rest)[..Min(|w|, 15)] == w[..Min(|w|, 15)] && (w + rest)[|w|..] == rest;
  }

  /** How a line is cut: what is left after each number and word, the permissions, the device and the inode. */
  datatype Cut = Cut(high: string, perm: string, word: string, offset: string, major: string, majorValue: word,
                     minor: string, minorValue: word, inode: string, inodeValue: word, gap: string)

  /** "low-high perm offset major:minor inode path", with blanks allowed before each number and word. */
  ghost predicate IsLine(line: string, e: Entry, c: Cut) {
    && IsNumber(line, 16, e.low, "-" + c.high)
    && IsNumber(c.high, 16, e.high, c.perm)
    && IsWord(c.perm, c.word, c.offset)
    && IsPlace(c.offset, e, c)
    && (e.access.read <==> c.word[0] == 'r')
    && (e.access.write <==> |c.word| > 1 && c.word[1] == 'w')
    && (e.access.exec <==> |c.word| > 2 && c.word[2] == 'x')
  }

  ghost predicate IsPlace(t: string, e: Entry, c: Cut) {
    && IsNumber(t, 16, e.offset, c.major)
    && IsNumber(c.major, 16, c.majorValue, ":" + c.minor)
    && IsNumber(c.minor, 16, c.minorValue, c.inode)
    && IsNumber(c.inode, 10, c.inodeValue, c.gap + e.path)
    && Blanks(c.gap) && (e.path != "" ==> e.path[0] != ' ' && e.path[0] != '\t')
  }

  lemma CharRead(c: char, t: string)
    ensures CharIn(Some([c] + t), '\0') == Scanned(Some(t), c)
  {
    assert ([c] + t)[1..] == t;
  }

  lemma PlaceRead(t: string, e: Entry, c: Cut)
    requires IsPlace(t, e, c)
    ensures PlaceIn(Some(t)) == Place(e.offset, ':', Some(c.gap + e.path)) && SkipBlanks(c.gap + e.path) == e.path
  {
    NumberRead(t, HEX, e.offset, c.major);
    NumberRead(c.major, HEX, c.majorValue, ":" + c.minor);
    CharRead(':', c.minor);
    NumberRead(c.minor, HEX, c.minorValue, c.inode);
    NumberRead(c.inode, DEC, c.inodeValue, c.gap + e.path);
    assert AllBlank(c.gap);
    SkipsGap(c.gap, e.path);
  }

  lemma LineRead(line: string, e: Entry, c: Cut)
    requires IsLine(line, e, c)
    ensures EntryOf(line) == Some(e)
  {
    NumberRead(line, HEX, e.low, "-" + c.high);
    CharRead('-', c.high);
    NumberRead(c.high, HEX, e.high, c.perm);
    WordRead(c.perm, c.word, c.offset);
    PlaceRead(c.offset, e, c);
  }

  lemma CharFound(u: string, c: char, rest: string)
    requires c != '\0' && CharIn(Some(u), '\0') == Scanned(Some(rest), c)
    ensures u == [c] + rest
  {
  }

  lemma PlaceFound(t: string, r: string) returns (major: word, minor: word, inode: word, afterOffset: string, afterColon: string, afterMinor: string)
    requires PlaceIn(Some(t)).rest == Some(r) && PlaceIn(Some(t)).colon == ':'
    ensures IsNumber(t, 16, PlaceIn(Some(t)).offset, afterOffset)
    ensures IsNumber(afterOffset, 16, major, ":" + afterColon)
    ensures IsNumber(afterColon, 16, minor, afterMinor) && IsNumber(afterMinor, 10, inode, r)
  {
    var a := NumberIn(Some(t), HEX, 0);
    var b := NumberIn(a.rest, HEX, 0);
    var colon := CharIn(b.rest, '\0');
    var c := NumberIn(colon.rest, HEX, 0);
    var d := NumberIn(c.rest, DEC, 0);
    afterOffset, afterColon, afterMinor := a.rest.value, colon.rest.value, c.rest.value;
    major, minor, inode := b.value, c.value, d.value;
    NumberFound(t, HEX, a.value, afterOffset);
    CharFound(b.rest.value, ':', afterColon);
    NumberFound(afterOffset, HEX, major, b.rest.value);
    NumberFound(afterColon, HEX, minor, afterMinor);
    NumberFound(afterMinor, DEC, inode, r);
  }

  /** What comes before the place: the range and the permissions. */
  datatype Head = Head(low: word, dash: char, high: word, perm: string, rest: Option<string>)

  function HeadIn(line: string): Head {
    var low := NumberIn(Some(line), HEX, 0);
    var dash := CharIn(low.rest, '\0');
    var high := NumberIn(dash.rest, HEX, 0);
    var perm := WordIn(high.rest, 16, "");
    Head(low.value, dash.value, high.value, perm.value, perm.rest)
  }

  lemma HeadFound(line: string) returns (high: string, perm: string, w: string)
    requires HeadIn(line).rest.Some? && HeadIn(line).dash == '-'
    ensures var h := HeadIn(line);
      && IsNumber(line, 16, h.low, "-" + high) && IsNumber(high, 16, h.high, perm)
      && IsWord(perm, w, h.rest.value) && h.perm == w[..Min(|w|, 15)]
  {
    var low := NumberIn(Some(line), HEX, 0);
    var dash := CharIn(low.rest, '\0');
    high := dash.rest.value;
    NumberFound(line, HEX, low.value, low.rest.value);
    CharFound(low.rest.value, '-', high);
    perm := NumberIn(Some(high), HEX, 0).rest.value;
    NumberFound(high, HEX, HeadIn(line).high, perm);
    w := WordFound(perm, HeadIn(line).perm, HeadIn(line).rest.value);
  }

  lemma EntryByHead(line: string, e: Entry)
    ensures var h := HeadIn(line);
      var place := PlaceIn(h.rest);
      EntryOf(line) == Some(e) <==>
        && place.rest.Some? && h.dash == '-' && place.colon == ':'
        && e == Entry(h.low, h.high, place.offset, AccessOf(h.perm), SkipBlanks(place.rest.value))
    ensures PlaceIn(HeadIn(line).rest).rest.Some? ==> HeadIn(line).rest.Some?
  {
  }

  lemma LineFound(line: string, e: Entry) returns (c: Cut)
    requires EntryOf(line) == Some(e)
    ensures IsLine(line, e, c)
  {
    EntryByHead(line, e);
    var h := HeadIn(line);
    var high, perm, w := HeadFound(line);
    var r := PlaceIn(h.rest).rest.value;
    var major, minor, inode, afterOffset, afterColon, afterMinor := PlaceFound(h.rest.value, r);
    var gap := BlanksSkipped(r);
    c := Cut(high, perm, w, h.rest.value, afterOffset, major, afterColon, minor, afterMinor, inode, gap);
  }

  /** A line has an entry if and only if it can be cut into its pieces. */
  lemma EntryIff(line: string, e: Entry)
    ensures EntryOf(line) == Some(e) <==> exists c :: IsLine(line, e, c)
  {
    if EntryOf(line) == Some(e) {
      var c := LineFound(line, e);
    }
    if c :| IsLine(line, e, c) {
      LineRead(line, e, c);
    }
  }
}
