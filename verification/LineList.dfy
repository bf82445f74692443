/** The `l` command: every byte of the pattern space spelled out, folded into lines of 71 bytes and a backslash. */
module LineList {
  import opened Bytes

  const SPACE: byte := 32
  const RUBOUT: byte := 127

  /** `lcomend` points behind this many bytes of genbuf. */
  const FOLD: nat := 71

  // ----- what is printed for one byte -----

  /** `trans` and `rub`: control characters in octal, but a newline as it is. */
  function Table(c: byte): (t: seq<byte>)
    requires 0 < c < SPACE || c == RUBOUT
    ensures NulFree(t)
  {
    if c == RUBOUT then [BACKSLASH, ZERO + 1, ZERO + 7, ZERO + 7]
    else if c == NEWLINE then [NEWLINE]
    else [BACKSLASH, ZERO + c / 8, ZERO + c % 8]
  }

  /** `isprint` in the C locale, for bytes from a space on other than 127. */
  predicate Printable(c: byte) {
    SPACE <= c < RUBOUT
  }

  /** `*p1`, where char is signed. */
  function Signed(c: byte): int {
    if c > RUBOUT then c - 256 else c
  }

  /** The digits of `l`: two shifts, of which only the second is masked, and the lowest three bits. */
  function Digits(c: byte): (d: seq<byte>)
    ensures |d| == 3 && NulFree(d)
  {
    [Signed(c) / 64 + ZERO, Signed(c) / 8 % 8 + ZERO, Signed(c) % 8 + ZERO]
  }

  function Spelled(c: byte): (t: seq<byte>)
    requires c != 0
    ensures NulFree(t)
  {
    if c < SPACE || c == RUBOUT then Table(c)
    else if Printable(c) then [c]
    else [BACKSLASH] + Digits(c)
  }

  /** Three octal digits, highest first, and the number they stand for. */
  predicate Spells(d: seq<byte>, n: int) {
    && |d| == 3 && (forall k :: 0 <= k < 3 ==> ZERO <= d[k] < ZERO + 8)
    && n == 64 * (d[0] - ZERO) + 8 * (d[1] - ZERO) + (d[2] - ZERO)
  }

  /** The digits are those of the byte exactly for bytes up to 127; above, the first is four too low and no digit. */
  lemma DigitsOfByte(c: byte)
    ensures Spells(Digits(c), c) <==> c <= RUBOUT
    ensures c > RUBOUT ==> Digits(c)[0] < ZERO && Spells(Digits(c)[0 := Digits(c)[0] + 4], c)
  {
    var x := Signed(c);
    assert x == 8 * (x / 8) + x % 8 && x / 8 == 8 * (x / 64) + x / 8 % 8;
  }

  /**
   * Printable bytes and the newline are listed as they are, the backslash included; any other byte as a backslash and
   * its number in octal: two digits below a space, three from 127 on, of which the first is four too low above 127.
   */
  lemma SpellingOfByte(c: byte)
    requires c != 0
    ensures var t := Spelled(c);
            if SPACE <= c < RUBOUT || c == NEWLINE then t == [c]
            else
              && t[0] == BACKSLASH && |t| == (if c < SPACE then 3 else 4)
              && Spells(if c < SPACE then [ZERO] + t[1..] else if c == RUBOUT then t[1..] else [t[1] + 4] + t[2..], c)
  {
    if c > RUBOUT {
      DigitsOfByte(c);
      assert [Digits(c)[0] + 4] + Spelled(c)[2..] == Digits(c)[0 := Digits(c)[0] + 4];
    }
  }

  function SpelledLine(line: seq<byte>): (t: seq<byte>)
    requires NulFree(line)
    ensures NulFree(t)
  {
    if line == [] then [] else Spelled(line[0]) + SpelledLine(line[1..])
  }

  // ----- folding -----

  /** The text cut into stretches of 71 bytes and a last one of fewer. */
  function Stretches(text: seq<byte>): (parts: seq<seq<byte>>)
    ensures parts != [] && |parts[|parts| - 1]| < FOLD
    ensures forall k :: 0 <= k < |parts| - 1 ==> |parts[k]| == FOLD
  {
    if |text| < FOLD then [text] else [text[..FOLD]] + Stretches(text[FOLD..])
  }

  /** Each stretch is written as a line; all but the last end in a backslash. */
  function Written(parts: seq<seq<byte>>): seq<byte>
    requires parts != []
  {
    if |parts| == 1 then parts[0] + [NEWLINE] else parts[0] + [BACKSLASH, NEWLINE] + Written(parts[1..])
  }

  function Joined(parts: seq<seq<byte>>): seq<byte> {
    if parts == [] then [] else parts[0] + Joined(parts[1..])
  }

  /** What `l` writes. */
  function Listing(line: seq<byte>): seq<byte>
    requires NulFree(line)
  {
    Written(Stretches(SpelledLine(line)))
  }

  /** Joining the stretches gives the spelled-out line back: folding loses nothing. */
  lemma {:induction false} JoinedStretches(text: seq<byte>)
    ensures Joined(Stretches(text)) == text
  {
    if |text| < FOLD {
      assert Stretches(text)[1..] == [];
    } else {
      JoinedStretches(text[FOLD..]);
      assert Stretches(text)[1..] == Stretches(text[FOLD..]);
    }
  }

  /** A spelled-out line of a whole number of folds is followed by an empty last line. */
  lemma {:induction false} EmptyLastLine(text: seq<byte>)
    ensures var parts := Stretches(text);
            |text| == FOLD * (|parts| - 1) + |parts[|parts| - 1]| && (parts[|parts| - 1] == [] <==> |text| % FOLD == 0)
  {
    if |text| >= FOLD {
      EmptyLastLine(text[FOLD..]);
      var parts := Stretches(text);
      assert parts == [text[..FOLD]] + Stretches(text[FOLD..]);
      assert |text| == |text[FOLD..]| + FOLD;
    }
  }

  // ----- reading a listing back -----

  /** Neither a backslash, nor 127, nor bytes above it. */
  predicate Plain(line: seq<byte>) {
    forall k :: 0 <= k < |line| ==> 0 < line[k] < RUBOUT && line[k] != BACKSLASH
  }

  predicate Octal(t: seq<byte>) {
    |t| >= 3 && t[0] == BACKSLASH && ZERO <= t[1] < ZERO + 4 && ZERO <= t[2] < ZERO + 8
  }

  /** Reads a spelled-out line back. */
  function ReadBack(t: seq<byte>): seq<byte> {
    if t == [] then []
    else if Octal(t) then [8 * (t[1] - ZERO) + (t[2] - ZERO)] + ReadBack(t[3..])
    else [t[0]] + ReadBack(t[1..])
  }

  lemma ReadsOctal(c: byte, rest: seq<byte>)
    requires 0 < c < SPACE && c != NEWLINE
    ensures ReadBack(Spelled(c) + rest) == [c] + ReadBack(rest)
  {
    var t := Spelled(c) + rest;
    assert t[0] == BACKSLASH && t[1] == ZERO + c / 8 && t[2] == ZERO + c % 8 && t[3..] == rest;
    assert c == 8 * (c / 8) + c % 8;
  }

  lemma ReadsItself(c: byte, rest: seq<byte>)
    requires c != BACKSLASH
    ensures ReadBack([c] + rest) == [c] + ReadBack(rest)
  {
    assert ([c] + rest)[1..] == rest;
  }

  lemma {:induction false} PlainReadsBack(line: seq<byte>)
    requires Plain(line) && NulFree(line)
    ensures ReadBack(SpelledLine(line)) == line
  {
    if line != [] {
      hide ReadBack;
      var c, rest := line[0], SpelledLine(line[1..]);
      PlainReadsBack(line[1..]);
      if c < SPACE && c != NEWLINE {
        ReadsOctal(c, rest);
      } else {
        ReadsItself(c, rest);
      }
    }
  }

  // ----- the lines whose listing no other line has -----

  /** Spelled with a backslash: control characters other than a newline, 127 and the bytes above it. */
  predicate Escaped(c: byte) {
    c != 0 && c != NEWLINE && !Printable(c)
  }

  /** A line may hold only what is listed as it is, and no backslash that starts the spelling of something else. */
  ghost predicate Telling(line: seq<byte>) {
    && (forall k :: 0 <= k < |line| ==> !Escaped(line[k]))
    && (forall k, c: byte :: 0 <= k < |line| && Escaped(c) ==> !(Spelled(c) <= line[k..]))
  }

  lemma {:induction false} SpelledAppend(a: seq<byte>, b: seq<byte>)
    requires NulFree(a) && NulFree(b)
    ensures SpelledLine(a + b) == SpelledLine(a) + SpelledLine(b)
  {
    if a == [] {
      assert a + b == b;
    } else {
      assert (a + b)[1..] == a[1..] + b;
      SpelledAppend(a[1..], b);
    }
  }

  /** What is listed as it is. */
  lemma {:induction false} SpelledItself(line: seq<byte>)
    requires NulFree(line) && forall k :: 0 <= k < |line| ==> !Escaped(line[k])
    ensures SpelledLine(line) == line
  {
    if line != [] {
      SpelledItself(line[1..]);
    }
  }

  lemma EscapedSpelling(c: byte)
    requires Escaped(c)
    ensures |Spelled(c)| > 1 && Spelled(c)[0] == BACKSLASH && SpelledLine(Spelled(c)) == Spelled(c)
    ensures SpelledLine([c]) == Spelled(c)
  {
    SpelledItself(Spelled(c));
    assert [c][1..] == [];
  }

  /** Different texts are written differently: folding can be undone. */
  lemma {:induction false} WrittenOnce(s: seq<byte>, t: seq<byte>)
    requires Written(Stretches(s)) == Written(Stretches(t))
    ensures s == t
    decreases |s|
  {
    WrittenParts(s);
    WrittenParts(t);
    if |s| >= FOLD {
      var w := Written(Stretches(s));
      assert s[..FOLD] == w[..FOLD] == t[..FOLD];
      assert Written(Stretches(s[FOLD..])) == w[FOLD + 2..] == Written(Stretches(t[FOLD..]));
      WrittenOnce(s[FOLD..], t[FOLD..]);
      assert s == s[..FOLD] + s[FOLD..] && t == t[..FOLD] + t[FOLD..];
    } else {
      assert s == (s + [NEWLINE])[..|s|] == (t + [NEWLINE])[..|t|] == t;
    }
  }

  lemma WrittenParts(s: seq<byte>)
    ensures |s| < FOLD ==> Written(Stretches(s)) == s + [NEWLINE]
    ensures |s| >= FOLD ==>
              var w := Written(Stretches(s));
              |w| > FOLD + 2 && w[..FOLD] == s[..FOLD] && w[FOLD + 2..] == Written(Stretches(s[FOLD..]))
  {
    if |s| >= FOLD {
      assert Stretches(s)[1..] == Stretches(s[FOLD..]);
    }
  }

  /** A line that is listed as it is: any other line listed so would have to be spelled inside it. */
  lemma {:induction false} NoOther(line: seq<byte>, other: seq<byte>)
    requires NulFree(line) && NulFree(other) && Telling(line) && SpelledLine(other) == line
    ensures other == line
    decreases |other|
  {
    hide SpelledLine, Spelled, Escaped, Telling;
    if other != [] {
      SpelledFirst(other);
      FirstIsItself(line, other[0], SpelledLine(other[1..]));
      TellingRest(line);
      NoOther(line[1..], other[1..]);
      assert line == [line[0]] + line[1..] && other == [other[0]] + other[1..];
    } else {
      SpelledItself([]);
    }
  }

  lemma SpelledFirst(line: seq<byte>)
    requires NulFree(line) && line != []
    ensures line[0] != 0 && SpelledLine(line) == Spelled(line[0]) + SpelledLine(line[1..])
  {
  }

  lemma FirstIsItself(line: seq<byte>, c: byte, rest: seq<byte>)
    requires c != 0 && Telling(line) && line == Spelled(c) + rest
    ensures line != [] && line[0] == c && line[1..] == rest
  {
    SpelledNotEmpty(c);
    assert Spelled(c) <= line[0..];
    assert !Escaped(c);
  }

  lemma SpelledNotEmpty(c: byte)
    requires c != 0
    ensures Spelled(c) != []
  {
  }

  lemma TellingRest(line: seq<byte>)
    requires Telling(line) && line != []
    ensures Telling(line[1..])
  {
    hide Spelled, Escaped;
    assert forall k :: 0 <= k < |line| - 1 ==> line[1..][k] == line[k + 1] && line[1..][k..] == line[k + 1..];
  }

  /** Another line with the same listing, for a line that is not Telling. */
  lemma Twin(line: seq<byte>) returns (other: seq<byte>)
    requires NulFree(line) && !Telling(line)
    ensures NulFree(other) && other != line && SpelledLine(other) == SpelledLine(line)
  {
    hide SpelledLine, Spelled;
    if k :| 0 <= k < |line| && Escaped(line[k]) {
      var c := line[k];
      EscapedSpelling(c);
      other := Exchanged(line[..k], [c], Spelled(c), line[k + 1..]);
      assert line == line[..k] + [c] + line[k + 1..];
    } else {
      var k, c: byte :| 0 <= k < |line| && Escaped(c) && Spelled(c) <= line[k..];
      EscapedSpelling(c);
      var n := |Spelled(c)|;
      other := Exchanged(line[..k], Spelled(c), [c], line[k + n..]);
      assert line[k..][..n] == line[k..k + n] == Spelled(c);
      assert line == line[..k] + Spelled(c) + line[k + n..];
    }
  }

  lemma Exchanged(a: seq<byte>, x: seq<byte>, y: seq<byte>, b: seq<byte>) returns (other: seq<byte>)
    requires NulFree(a) && NulFree(x) && NulFree(y) && NulFree(b) && |x| != |y| && SpelledLine(x) == SpelledLine(y)
    ensures NulFree(other) && other == a + y + b && other != a + x + b && SpelledLine(other) == SpelledLine(a + x + b)
  {
    other := a + y + b;
    assert |other| != |a + x + b|;
    SpelledAppend(a + x, b);
    SpelledAppend(a, x);
    SpelledAppend(a + y, b);
    SpelledAppend(a, y);
  }

  /** The listing tells exactly these lines from all others. */
  lemma ListingTells(line: seq<byte>)
    requires NulFree(line)
    ensures Telling(line) <==> forall other :: NulFree(other) && Listing(other) == Listing(line) ==> other == line
  {
    if Telling(line) {
      SpelledItself(line);
      forall other | NulFree(other) && Listing(other) == Listing(line)
        ensures other == line
      {
        WrittenOnce(SpelledLine(other), SpelledLine(line));
        NoOther(line, other);
      }
    } else {
      var other := Twin(line);
      assert Listing(other) == Listing(line);
    }
  }

  /** A tab and the three characters \\11 are listed alike, and so are 127 and the byte 15 followed by a 7. */
  lemma Ambiguous()
    ensures Listing([9]) == Listing([BACKSLASH, 49, 49])
    ensures Listing([RUBOUT]) == Listing([15, 55])
  {
    SpelledTwo(49, 49);
    assert SpelledLine([9]) == Spelled(9) + SpelledLine([]);
    assert SpelledLine([BACKSLASH, 49, 49]) == [BACKSLASH] + SpelledLine([49, 49]);
    assert SpelledLine([RUBOUT]) == Spelled(RUBOUT) + SpelledLine([]);
    assert [15, 55][1..] == [55] && SpelledLine([55]) == [55];
    assert SpelledLine([15, 55]) == Spelled(15) + SpelledLine([55]);
  }

  /** None of these lines can be told, but a backslash alone is no reason: no other line is listed like \\a. */
  lemma Told()
    ensures !Telling([9]) && !Telling([BACKSLASH, 49, 49]) && !Telling([RUBOUT]) && !Telling([15, 55])
    ensures Telling([BACKSLASH, 97])
  {
    hide Telling, Listing;
    Ambiguous();
    ListingTells([9]);
    ListingTells([BACKSLASH, 49, 49]);
    ListingTells([RUBOUT]);
    ListingTells([15, 55]);
    BackslashAlone();
  }

  lemma BackslashAlone()
    ensures Telling([BACKSLASH, 97])
  {
    var line: seq<byte> := [BACKSLASH, 97];
    forall k, c: byte | 0 <= k < |line| && Escaped(c)
      ensures !(Spelled(c) <= line[k..])
    {
      EscapedSpelling(c);
      if k == 0 {
        assert line[k..][1] == 97;
      }
    }
  }

  lemma SpelledTwo(a: byte, b: byte)
    requires Printable(a) && Printable(b)
    ensures SpelledLine([a, b]) == [a, b] && [BACKSLASH, a, b][1..] == [a, b]
  {
    assert [a, b][1..] == [b] && SpelledLine([b]) == [b];
  }

  // ----- the command -----

  /** `strlen` */
  function Length(s: seq<byte>): (n: nat)
    ensures n <= |s| && NulFree(s[..n]) && (n < |s| ==> s[n] == 0)
  {
    if s == [] || s[0] == 0 then 0 else
      var n := Length(s[1..]);
      assert s[..n + 1] == [s[0]] + s[1..][..n];
      n + 1
  }

  lemma {:induction false} LengthIs(s: seq<byte>, n: nat)
    requires n < |s| && NulFree(s[..n]) && s[n] == 0
    ensures Length(s) == n
  {
    if n > 0 {
      assert s[0] == s[..n][0] && s[1..][..n - 1] == s[..n][1..];
      LengthIs(s[1..], n - 1);
    }
  }

  /** `l` at work: genbuf up to p2 holds the stretch being made, out what has been written. */
  class Lister {
    const genbuf: array<byte>
    var p2: nat
    var out: seq<byte>

    constructor (n: nat)
      requires n > FOLD + 1
      ensures Valid() && p2 == 0 && out == [] && fresh(genbuf)
    {
      genbuf := new byte[n];
      p2, out := 0, [];
      new;
      genbuf[FOLD + 1] := 0;
    }

    /** The write index stays below lcomend, and the byte behind the folding backslash ends a string. */
    ghost predicate Valid()
      reads this, genbuf
    {
      genbuf.Length > FOLD + 1 && p2 < FOLD && genbuf[FOLD + 1] == 0 && NulFree(genbuf[..p2])
    }

    /** `wline(genbuf, strlen(genbuf))`, where the string in genbuf is text. */
    method WriteLine(ghost text: seq<byte>)
      requires |text| < genbuf.Length && genbuf[..|text|] == text && NulFree(text) && genbuf[|text|] == 0
      modifies this`out
      ensures out == old(out) + (text + [NEWLINE])
    {
      LengthIs(genbuf[..], |text|);
      assert genbuf[..][..|text|] == text;
      out := out + (genbuf[..Length(genbuf[..])] + [NEWLINE]);
    }

    /** What will have been written when the spelled-out text still to come is more. */
    ghost function Outlook(more: seq<byte>): seq<byte>
      requires Valid()
      reads this, genbuf
    {
      out + Written(Stretches(genbuf[..p2] + more))
    }

    /** `*p2++ = c`, and a fold when p2 reaches lcomend. */
    method Put(c: byte, ghost more: seq<byte>)
      requires Valid() && c != 0
      modifies this, genbuf
      ensures Valid() && Outlook(more) == old(Outlook([c] + more))
    {
      ghost var part, before := genbuf[..p2], out;
      genbuf[p2] := c;
      p2 := p2 + 1;
      assert genbuf[..p2] == part + [c];
      assert part + ([c] + more) == (part + [c]) + more;
      if p2 >= FOLD {
        genbuf[p2] := BACKSLASH;
        ghost var full := part + [c];
        assert genbuf[..p2 + 1] == full + [BACKSLASH];
        WriteLine(full + [BACKSLASH]);
        p2 := 0;
        Fold(full, more, before);
        assert genbuf[..p2] + more == more;
      }
    }

    /** Copies a string with its terminator, and steps back onto the terminator. */
    method PutString(text: seq<byte>, ghost more: seq<byte>)
      requires Valid() && NulFree(text)
      modifies this, genbuf
      ensures Valid() && Outlook(more) == old(Outlook(text + more))
    {
      var p3 := 0;
      while p3 < |text|
        invariant p3 <= |text| && Valid()
        invariant Outlook(text[p3..] + more) == old(Outlook(text + more))
      {
        assert text[p3..] + more == [text[p3]] + (text[p3 + 1..] + more);
        Put(text[p3], text[p3 + 1..] + more);
        p3 := p3 + 1;
      }
      assert text[p3..] + more == more;
      ghost var part := genbuf[..p2];
      genbuf[p2] := 0;
      assert genbuf[..p2] == part;
    }

    /** The body of the loop of LCOM. */
    method PutByte(c: byte, ghost more: seq<byte>)
      requires Valid() && c != 0
      modifies this, genbuf
      ensures Valid() && Outlook(more) == old(Outlook(Spelled(c) + more))
    {
      if c >= SPACE {
        if c == RUBOUT {
          PutString(Table(c), more);
        } else if !Printable(c) {
          PutOctal(c, more);
        } else {
          Put(c, more);
        }
      } else {
        PutString(Table(c), more);
      }
    }

    /** The case of LCOM in `command`. */
    method List(line: seq<byte>)
      requires genbuf.Length > FOLD + 1 && NulFree(line)
      modifies this, genbuf
      ensures out == old(out) + Listing(line)
    {
      hide Stretches, Written, Length;
      var p1 := 0;
      p2 := 0;
      genbuf[FOLD + 1] := 0;
      assert line[p1..] == line && genbuf[..p2] + SpelledLine(line) == SpelledLine(line);
      while p1 < |line|
        invariant p1 <= |line| && Valid()
        invariant Outlook(SpelledLine(line[p1..])) == old(out) + Listing(line)
      {
        assert line[p1..][1..] == line[p1 + 1..];
        PutByte(line[p1], SpelledLine(line[p1 + 1..]));
        p1 := p1 + 1;
      }
      genbuf[p2] := 0;
      ghost var last := genbuf[..p2];
      assert last + SpelledLine(line[p1..]) == last;
      LastStretch(last);
      WriteLine(last);
    }

    method PutOctal(c: byte, ghost more: seq<byte>)
      requires Valid() && c > RUBOUT
      modifies this, genbuf
      ensures Valid() && Outlook(more) == old(Outlook(Spelled(c) + more))
    {
      hide Digits, Spelled, Stretches, Written;
      var d := Digits(c);
      SpelledOctal(c, d, more);
      Put(BACKSLASH, [d[0]] + ([d[1]] + ([d[2]] + more)));
      Put(d[0], [d[1]] + ([d[2]] + more));
      Put(d[1], [d[2]] + more);
      Put(d[2], more);
    }
  }

  lemma SpelledOctal(c: byte, d: seq<byte>, more: seq<byte>)
    requires c > RUBOUT && d == Digits(c)
    ensures Spelled(c) + more == [BACKSLASH] + ([d[0]] + ([d[1]] + ([d[2]] + more)))
  {
    hide Digits;
    assert d == [d[0]] + ([d[1]] + [d[2]]);
  }

  lemma LastStretch(text: seq<byte>)
    requires |text| < FOLD
    ensures Written(Stretches(text)) == text + [NEWLINE]
  {
  }

  /** A full stretch is written as it stands, with a backslash behind it. */
  lemma Fold(full: seq<byte>, more: seq<byte>, before: seq<byte>)
    requires |full| == FOLD
    ensures before + Written(Stretches(full + more))
            == before + ((full + [BACKSLASH]) + [NEWLINE]) + Written(Stretches(more))
  {
    assert (full + more)[..FOLD] == full && (full + more)[FOLD..] == more;
    assert Stretches(full + more) == [full] + Stretches(more);
    assert ([full] + Stretches(more))[1..] == Stretches(more);
  }
}
