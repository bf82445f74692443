/** `sed_compile` translates the text of every valid pattern into the encoding of the pattern's program. */
module Translation {
  import opened Bytes
  import opened Program
  import opened MatchSpec
  import opened Matcher
  import opened RegexSpec
  import opened Pattern

  // ----- bracket classes -----

  function ClassTail(rest: seq<ClassItem>, dash: bool): seq<byte> {
    ShowItems(rest) + ((if dash then [MINUS] else []) + [RBRACKET])
  }

  /** What the map holds after the members rest, when lc was placed before them. */
  function Placed(placed: set<byte>, lc: byte, rest: seq<ClassItem>, dash: bool): set<byte>
    decreases |rest|
  {
    if rest == [] then if dash then placed + {MINUS} else placed
    else
      var now := placed + if rest[0].Single? then {rest[0].c} else RangeSet(lc, rest[0].c);
      Placed(now, rest[0].c, rest[1..], dash)
  }

  predicate HighItems(rest: seq<ClassItem>) {
    rest != [] && (rest[0].c >= 128 || HighItems(rest[1..]))
  }

  /** The outcome of scanning the members rest. */
  function TailScan(placed: set<byte>, lc: byte, rest: seq<ClassItem>, dash: bool, wide: bool, canWiden: bool,
                    sp: nat): ClassScan {
    if HighItems(rest) && !wide && !canWiden then ClassError(50)
    else ClassEnd(Placed(placed, lc, rest, dash), wide || HighItems(rest), sp)
  }

  lemma {:induction false} ScansTail(src: seq<byte>, i: nat, lc: byte, rest: seq<ClassItem>, dash: bool,
                                     placed: set<byte>, wide: bool, canWiden: bool)
    requires NulFree(src) && i <= |src| && ClassTail(rest, dash) <= src[i..]
    requires lc != 0 && ValidItems(rest) && (rest != [] || dash)
    ensures ScanClass(src, i, lc, placed, wide, canWiden)
            == TailScan(placed, lc, rest, dash, wide, canWiden, i + |ClassTail(rest, dash)|)
    decreases |rest|
  {
    hide ScanClass;
    if rest == [] {
      assert ClassTail(rest, dash) == [MINUS, RBRACKET];
      PrefixSplits([MINUS, RBRACKET], [], src, i);
      assert src[i + 0] == MINUS && src[i + 1] == RBRACKET;
      ScansDash(src, i, lc, placed, wide, canWiden);
    } else {
      var head := MemberText(rest[0]);
      var later := ClassTail(rest[1..], dash);
      assert ClassTail(rest, dash) == head + later;
      PrefixSplits(head, later, src, i);
      var j := i + |head|;
      TailStarts(src, j, rest[1..], dash);
      ScansMember(src, i, lc, rest[0], placed, wide, canWiden);
      var now := placed + if rest[0].Single? then {rest[0].c} else RangeSet(lc, rest[0].c);
      if rest[1..] != [] || dash {
        ScansTail(src, j, rest[0].c, rest[1..], dash, now, wide || rest[0].c >= 128, canWiden);
      } else {
        assert Placed(now, rest[0].c, rest[1..], dash) == now && !HighItems(rest[1..]);
      }
    }
  }

  function MemberText(x: ClassItem): (t: seq<byte>)
    ensures |t| == if x.Single? then 1 else 2
  {
    if x.Single? then [x.c] else [MINUS, x.c]
  }

  /** A minus in front of the bracket stands for itself. */
  lemma ScansDash(src: seq<byte>, i: nat, lc: byte, placed: set<byte>, wide: bool, canWiden: bool)
    requires NulFree(src) && i + 1 < |src| && src[i] == MINUS && src[i + 1] == RBRACKET && lc != 0
    ensures ScanClass(src, i, lc, placed, wide, canWiden) == ClassEnd(placed + {MINUS}, wide, i + 2)
  {
  }

  /** One member of the class. */
  lemma ScansMember(src: seq<byte>, i: nat, lc: byte, x: ClassItem, placed: set<byte>, wide: bool, canWiden: bool)
    requires NulFree(src) && i + |MemberText(x)| < |src| && lc != 0 && ValidItems([x])
    requires src[i] == MemberText(x)[0] && (x.Upto? ==> src[i + 1] == x.c)
    ensures var j, w := i + |MemberText(x)|, wide || x.c >= 128;
            var now := placed + if x.Single? then {x.c} else RangeSet(lc, x.c);
            ScanClass(src, i, lc, placed, wide, canWiden)
            == if w && !wide && !canWiden then ClassError(50)
               else if src[j] == RBRACKET then ClassEnd(now, w, j + 1)
               else ScanClass(src, j, x.c, now, w, canWiden)
  {
    assert [x][0] == x;
  }

  /** A class tail starts in a bracket exactly when it is only the bracket. */
  lemma TailStarts(src: seq<byte>, j: nat, rest: seq<ClassItem>, dash: bool)
    requires j <= |src| && ClassTail(rest, dash) <= src[j..] && ValidItems(rest)
    ensures j < |src| && (src[j] == RBRACKET <==> rest == [] && !dash)
    ensures |ClassTail(rest, dash)| == 1 <==> rest == [] && !dash
  {
    assert src[j] == src[j..][0] == ClassTail(rest, dash)[0];
    if rest != [] {
      var head := if rest[0].Single? then [rest[0].c] else [MINUS, rest[0].c];
      assert ClassTail(rest, dash) == head + ClassTail(rest[1..], dash);
    } else if dash {
      assert ClassTail(rest, dash) == [MINUS, RBRACKET];
    } else {
      assert ClassTail(rest, dash) == [RBRACKET];
    }
  }

  lemma {:induction false} PlacedAreListed(placed: set<byte>, first: byte, rest: seq<ClassItem>, dash: bool, b: byte)
    ensures b in Placed(placed, first, rest, dash) <==>
              || b in placed || (dash && b == MINUS)
              || exists k: nat :: k < |rest| && ItemHas(Before(first, rest, k), rest[k], b)
    decreases |rest|
  {
    if rest != [] {
      var c, later := rest[0].c, rest[1..];
      var now := placed + if rest[0].Single? then {c} else RangeSet(first, c);
      PlacedAreListed(now, c, later, dash, b);
      assert b in now <==> b in placed || ItemHas(Before(first, rest, 0), rest[0], b);
      forall k: nat | k < |later|
        ensures ItemHas(Before(c, later, k), later[k], b) == ItemHas(Before(first, rest, k + 1), rest[k + 1], b)
      {
      }
      if k: nat :| k < |rest| && ItemHas(Before(first, rest, k), rest[k], b) {
        if k > 0 {
          assert ItemHas(Before(c, later, k - 1), later[k - 1], b);
        }
      }
      if k: nat :| k < |later| && ItemHas(Before(c, later, k), later[k], b) {
        assert ItemHas(Before(first, rest, k + 1), rest[k + 1], b);
      }
    }
  }

  lemma {:induction false} HighItemsExist(rest: seq<ClassItem>)
    ensures HighItems(rest) <==> exists k :: 0 <= k < |rest| && rest[k].c >= 128
  {
    if rest != [] {
      HighItemsExist(rest[1..]);
      if k :| 0 <= k < |rest| && rest[k].c >= 128 {
        if k > 0 {
          assert rest[1..][k - 1].c >= 128;
        }
      }
      if k :| 0 <= k < |rest[1..]| && rest[1..][k].c >= 128 {
        assert rest[k + 1].c >= 128;
      }
    }
  }

  /** The map compiled for a valid class holds exactly the characters the class lists. */
  lemma ScansClass(src: seq<byte>, i: nat, neg: bool, first: byte, rest: seq<ClassItem>, dash: bool, canWiden: bool)
    requires NulFree(src) && i <= |src| && [first] + ClassTail(rest, dash) <= src[i..] && ValidClass(neg, first, rest)
    ensures var scan := ScanClass(src, i, 0, {}, false, canWiden);
            if HighByte(first, rest) && !canWiden then scan == ClassError(50)
            else
              var listed := set b: byte | 0 <= b < 256 && Listed(first, rest, dash, b);
              scan == ClassEnd(listed, HighByte(first, rest), i + 1 + |ClassTail(rest, dash)|)
  {
    PrefixSplits([first], ClassTail(rest, dash), src, i);
    assert src[i] == first;
    TailStarts(src, i + 1, rest, dash);
    HighItemsExist(rest);
    var listed := set b: byte | 0 <= b < 256 && Listed(first, rest, dash, b);
    forall b: byte
      ensures b in Placed({first}, first, rest, dash) <==> b in listed
    {
      PlacedAreListed({first}, first, rest, dash, b);
    }
    assert Placed({first}, first, rest, dash) == listed;
    assert {} + {first} == {first};
    if rest != [] || dash {
      ScansTail(src, i + 1, first, rest, dash, {first}, first >= 128, canWiden);
    } else {
      assert Placed({first}, first, rest, dash) == {first};
    }
  }

  // ----- intervals -----

  lemma {:induction false} ScansNumber(src: seq<byte>, i: nat, k: nat, digits: seq<byte>, stop: byte)
    requires NulFree(src) && i <= |src| && digits + [stop] <= src[i..] && Digits(digits)
    requires stop == BACKSLASH || stop == COMMA
    requires k < |digits| && Value(digits[..k]) >= 0 && Value(digits) >= 0
    ensures ScanNumber(src, i + k, Value(digits[..k])) == NumEnd(Value(digits), stop, i + |digits| + 1)
    decreases |digits| - k
  {
    PrefixSplits(digits, [stop], src, i);
    PrefixSplits([stop], [], src, i + |digits|);
    assert src[i + k] == digits[k] && src[i + |digits|] == stop;
    ValueNonNegative(digits[..k + 1]);
    assert digits[..k + 1][..k] == digits[..k];
    if k + 1 < |digits| {
      assert src[i + k + 1] == digits[k + 1];
      ScansNumber(src, i, k + 1, digits, stop);
    } else {
      assert digits[..k + 1] == digits;
    }
  }

  lemma ScansWholeNumber(src: seq<byte>, i: nat, digits: seq<byte>, stop: byte)
    requires NulFree(src) && i <= |src| && digits + [stop] <= src[i..] && Digits(digits)
    requires stop == BACKSLASH || stop == COMMA
    ensures Value(digits) >= 0 && ScanNumber(src, i, 0) == NumEnd(Value(digits), stop, i + |digits| + 1)
  {
    ValueNonNegative(digits);
    assert digits[..0] == [] && Value(digits[..0]) == 0;
    ScansNumber(src, i, 0, digits, stop);
  }

  /** The text after the brace of an interval. */
  function IntervalText(t: Times): seq<byte>
    requires !t.One? && !t.Asterisk?
  {
    match t
    case Exactly(n) => n + [BACKSLASH, RBRACE]
    case AtLeast(n) => n + [COMMA, BACKSLASH, RBRACE]
    case Between(n, m) => n + [COMMA] + (m + [BACKSLASH, RBRACE])
  }

  lemma ScansInterval(src: seq<byte>, i: nat, t: Times)
    requires NulFree(src) && i <= |src| && !t.One? && !t.Asterisk? && ValidTimes(t, 0) && IntervalText(t) <= src[i..]
    ensures ScanInterval(src, i) == Interval(QuantOf(t).lo, QuantOf(t).hi, i + |IntervalText(t)|)
  {
    hide ScanInterval, Value, ValidNumber;
    match t
    case Exactly(n) => ScansExactly(src, i, n);
    case AtLeast(n) => ScansAtLeast(src, i, n);
    case Between(n, m) =>
      PrefixSplits(n + [COMMA], m + [BACKSLASH, RBRACE], src, i);
      ScansTwoNumbers(src, i, i + |n| + 1, n, m);
  }

  /** The last number of an interval, and the brace behind it. */
  lemma ScansLastNumber(src: seq<byte>, i: nat, n: seq<byte>)
    requires NulFree(src) && i <= |src| && ValidNumber(n) && n + [BACKSLASH, RBRACE] <= src[i..]
    ensures i + |n| + 1 < |src| && src[i + |n| + 1] == RBRACE && src[i] != BACKSLASH
    ensures Value(n) >= 0 && ScanNumber(src, i, 0) == NumEnd(Value(n), BACKSLASH, i + |n| + 1)
  {
    var j := i + |n| + 1;
    assert n + [BACKSLASH, RBRACE] == (n + [BACKSLASH]) + [RBRACE];
    PrefixSplits(n + [BACKSLASH], [RBRACE], src, i);
    PrefixSplits([RBRACE], [], src, j);
    assert src[j + 0] == RBRACE;
    ScansWholeNumber(src, i, n, BACKSLASH);
    assert src[i + 0] == (n + [BACKSLASH])[0] == n[0] && IsDigit(n[0]);
  }

  lemma ScansExactly(src: seq<byte>, i: nat, n: seq<byte>)
    requires NulFree(src) && i <= |src| && ValidNumber(n) && n + [BACKSLASH, RBRACE] <= src[i..]
    ensures Value(n) >= 0 && ScanInterval(src, i) == Interval(Value(n), Value(n), i + |n| + 2)
  {
    ScansLastNumber(src, i, n);
  }

  lemma ScansAtLeast(src: seq<byte>, i: nat, n: seq<byte>)
    requires NulFree(src) && i <= |src| && ValidNumber(n) && n + [COMMA, BACKSLASH, RBRACE] <= src[i..]
    ensures Value(n) >= 0 && ScanInterval(src, i) == Interval(Value(n), OPEN_ENDED, i + |n| + 3)
  {
    hide ScanInterval, ScanNumber, Value;
    var j := i + |n| + 1;
    assert n + [COMMA, BACKSLASH, RBRACE] == (n + [COMMA]) + [BACKSLASH, RBRACE];
    PrefixSplits(n + [COMMA], [BACKSLASH, RBRACE], src, i);
    assert j + 1 < |src| && src[j + 0] == BACKSLASH && src[j + 1] == RBRACE by {
      PrefixSplits([BACKSLASH, RBRACE], [], src, j);
    }
    ScansWholeNumber(src, i, n, COMMA);
    OneNumber(src, i, j, Value(n));
  }

  lemma OneNumber(src: seq<byte>, i: nat, j: nat, lo: nat)
    requires NulFree(src) && i <= |src| && j + 1 < |src| && lo < 255
    requires ScanNumber(src, i, 0) == NumEnd(lo, COMMA, j) && src[j] == BACKSLASH && src[j + 1] == RBRACE
    ensures ScanInterval(src, i) == Interval(lo, OPEN_ENDED, j + 2)
  {
  }

  lemma ScansTwoNumbers(src: seq<byte>, i: nat, j: nat, n: seq<byte>, m: seq<byte>)
    requires NulFree(src) && i <= |src| && ValidNumber(n) && ValidNumber(m) && Value(n) <= Value(m)
    requires n + [COMMA] <= src[i..] && j == i + |n| + 1 <= |src| && m + [BACKSLASH, RBRACE] <= src[j..]
    ensures 0 <= Value(n) && ScanInterval(src, i) == Interval(Value(n), Value(m), j + |m| + 2)
  {
    ScansLastNumber(src, j, m);
    ScansWholeNumber(src, i, n, COMMA);
    TwoNumbers(src, i, j, j + |m| + 1, Value(n), Value(m));
  }

  lemma TwoNumbers(src: seq<byte>, i: nat, j: nat, k: nat, lo: nat, hi: nat)
    requires NulFree(src) && i <= |src| && j < |src| && k < |src| && lo <= hi < 255
    requires ScanNumber(src, i, 0) == NumEnd(lo, COMMA, j) && src[j] != BACKSLASH
    requires ScanNumber(src, j, 0) == NumEnd(hi, BACKSLASH, k) && src[k] == RBRACE
    ensures ScanInterval(src, i) == Interval(lo, hi, k + 1)
  {
  }

  // ----- one piece -----

  /** The compiler, with st, has the text of the symbol ahead of it at sp. */
  ghost predicate SymbolAhead(src: seq<byte>, sp: nat, eof: byte, room: nat, st: CompState, s: Symbol, prev: Prev,
                              last: bool) {
    && NulFree(src) && sp <= |src| && ShowSymbol(s) <= src[sp..]
    && st.Valid() && |st.code| < room && Follows(st, prev) && ValidSymbol(s, prev, eof, last)
    && (s == Plain(DOLLAR) ==> At(src, sp + 1) != eof && At(src, sp + 1) != NEWLINE)
  }

  ghost predicate TimesAhead(src: seq<byte>, sp: nat, eof: byte, st: CompState, t: Times) {
    NulFree(src) && sp <= |src| && ShowTimes(t) <= src[sp..] && st.Valid() && ValidTimes(t, eof) && ValidTimes(t, 0)
  }

  /** lastep is as the piece before left it. */
  predicate Follows(st: CompState, prev: Prev) {
    match prev
    case Nothing => st.lastep.None?
    case Paren =>
      && st.lastep.Some? && st.lastep.value < |st.code|
      && (st.code[st.lastep.value] == CBRA || st.code[st.lastep.value] == CKET)
    case Atomic =>
      && st.lastep.Some? && st.lastep.value < |st.code|
      && st.code[st.lastep.value] != CBRA && st.code[st.lastep.value] != CKET
  }

  function AtomCode(s: Symbol): seq<byte> {
    EncodeInstr(Item(AtomOf(s), Once))
  }

  lemma AtomCodeSize(s: Symbol)
    ensures |AtomCode(s)|
            == if s.Bracket? then 1 + MapSize(HighByte(s.first, s.rest)) else if s.AnyCharacter? then 1 else 2
    ensures s.Plain? || s.Quoted? ==> AtomCode(s) == [CCHR, s.c]
    ensures s.NewlineEscape? ==> AtomCode(s) == [CCHR, NEWLINE]
    ensures s.AnyCharacter? ==> AtomCode(s) == [CDOT]
  {
  }

  lemma BracketStep(src: seq<byte>, sp: nat, eof: byte, room: nat, st: CompState, neg: bool, scan: ClassScan)
    requires NulFree(src) && sp < |src| && st.Valid() && |st.code| < room
    requires src[sp] == LBRACKET && eof != LBRACKET && neg == (At(src, sp + 1) == CARET)
    requires scan == ScanClass(src, if neg then sp + 2 else sp + 1, 0, {}, false, |st.code| + 33 < room)
    ensures |st.code| + 17 >= room || scan == ClassError(50) ==> CompileFrom(src, sp, eof, room, st) == Failed(50)
    ensures |st.code| + 17 < room && scan.ClassEnd? ==>
              CompileFrom(src, sp, eof, room, st)
              == (var instr := Item(Cls(scan.placed, scan.wide, neg), Once);
                  CompileFrom(src, scan.sp, eof, room, st.Emit(EncodeInstr(instr))))
  {
    assert CompileFrom(src, sp, eof, room, st) == CompileBracket(src, sp, eof, room, st);
  }

  lemma CompilesBracket(src: seq<byte>, sp: nat, eof: byte, room: nat, st: CompState, s: Symbol, prev: Prev, last: bool)
    requires NulFree(src) && sp <= |src| && st.Valid() && |st.code| < room && ShowSymbol(s) <= src[sp..]
    requires ValidSymbol(s, prev, eof, last) && s.Bracket?
    ensures sp + |ShowSymbol(s)| <= |src|
    ensures CompileFrom(src, sp, eof, room, st)
            == CompileFrom(src, sp + |ShowSymbol(s)|, eof, room, st.Emit(AtomCode(s)))
  {
    BracketText(src, sp, s);
    var i := if s.neg then sp + 2 else sp + 1;
    var canWiden := |st.code| + 33 < room;
    ScansClass(src, i, s.neg, s.first, s.rest, s.dash, canWiden);
    var scan := ScanClass(src, i, 0, {}, false, canWiden);
    BracketStep(src, sp, eof, room, st, s.neg, scan);
    BracketRoom(src, sp, eof, room, st, s, scan);
  }

  lemma BracketText(src: seq<byte>, sp: nat, s: Symbol)
    requires NulFree(src) && sp <= |src| && ShowSymbol(s) <= src[sp..] && s.Bracket?
    requires ValidClass(s.neg, s.first, s.rest)
    ensures var i := if s.neg then sp + 2 else sp + 1;
            && sp + |ShowSymbol(s)| <= |src| && src[sp] == LBRACKET && (At(src, sp + 1) == CARET <==> s.neg)
            && [s.first] + ClassTail(s.rest, s.dash) <= src[i..]
            && |ShowSymbol(s)| == i - sp + 1 + |ClassTail(s.rest, s.dash)|
  {
    var tail := [s.first] + ClassTail(s.rest, s.dash);
    var head := [LBRACKET] + if s.neg then [CARET] else [];
    assert ShowSymbol(s) == head + tail;
    PrefixSplits(head, tail, src, sp);
    PrefixSplits([s.first], ClassTail(s.rest, s.dash), src, sp + |head|);
    assert src[sp + 0] == LBRACKET && (s.neg ==> src[sp + 1] == CARET) && src[sp + |head| + 0] == s.first;
  }

  lemma BracketRoom(src: seq<byte>, sp: nat, eof: byte, room: nat, st: CompState, s: Symbol, scan: ClassScan)
    requires NulFree(src) && s.Bracket? && sp + |ShowSymbol(s)| <= |src| && st.Valid()
    requires scan == if HighByte(s.first, s.rest) && |st.code| + 33 >= room then ClassError(50)
                     else ClassEnd(AtomOf(s).placed, HighByte(s.first, s.rest), sp + |ShowSymbol(s)|)
    requires sp <= |src|
    requires |st.code| + 17 >= room || scan == ClassError(50) ==> CompileFrom(src, sp, eof, room, st) == Failed(50)
    requires |st.code| + 17 < room && scan.ClassEnd? ==>
               CompileFrom(src, sp, eof, room, st)
               == (var instr := Item(Cls(scan.placed, scan.wide, s.neg), Once);
                   CompileFrom(src, scan.sp, eof, room, st.Emit(EncodeInstr(instr))))
    ensures CompileFrom(src, sp, eof, room, st)
            == CompileFrom(src, sp + |ShowSymbol(s)|, eof, room, st.Emit(AtomCode(s)))
  {
    AtomCodeSize(s);
  }

  /** A symbol's text stores the code of its atom, unless that does not fit. */
  lemma CompilesSymbol(src: seq<byte>, sp: nat, eof: byte, room: nat, st: CompState, s: Symbol, prev: Prev, last: bool)
    requires SymbolAhead(src, sp, eof, room, st, s, prev, last)
    ensures sp + |ShowSymbol(s)| <= |src|
    ensures CompileFrom(src, sp, eof, room, st)
            == CompileFrom(src, sp + |ShowSymbol(s)|, eof, room, st.Emit(AtomCode(s)))
  {
    PrefixSplits(ShowSymbol(s), [], src, sp);
    if s.Bracket? {
      CompilesBracket(src, sp, eof, room, st, s, prev, last);
    } else {
      assert src[sp] == ShowSymbol(s)[0];
      assert !s.Plain? && !s.AnyCharacter? ==> src[sp + 1] == ShowSymbol(s)[1];
      AtomCodeSize(s);
      if src[sp] == BACKSLASH {
        assert CompileFrom(src, sp, eof, room, st) == CompileEscape(src, sp, eof, room, st);
      }
    }
  }

  /** The text of a quantifier turns the code of the atom just stored into that of the quantified atom. */
  lemma CompilesTimes(src: seq<byte>, sp: nat, eof: byte, room: nat, st: CompState, s: Symbol, t: Times)
    requires TimesAhead(src, sp, eof, st, t)
    ensures sp + |ShowTimes(t)| <= |src|
    ensures CompileFrom(src, sp, eof, room, st.Emit(AtomCode(s)))
            == CompileFrom(src, sp + |ShowTimes(t)|, eof, room, st.Emit(EncodeInstr(Item(AtomOf(s), QuantOf(t)))))
  {
    PrefixSplits(ShowTimes(t), [], src, sp);
    AtomCodeParts(s, QuantOf(t));
    if |st.code| + |AtomCode(s)| < room {
      match t
      case One =>
      case Asterisk => CompilesAsterisk(src, sp, eof, room, st, s);
      case _ => CompilesInterval(src, sp, eof, room, st, s, t);
    }
  }

  lemma CompilesAsterisk(src: seq<byte>, sp: nat, eof: byte, room: nat, st: CompState, s: Symbol)
    requires NulFree(src) && sp <= |src| && st.Valid() && |st.code| + |AtomCode(s)| < room
    requires eof != ASTERISK && [ASTERISK] <= src[sp..]
    ensures sp + 1 <= |src|
    ensures CompileFrom(src, sp, eof, room, st.Emit(AtomCode(s)))
            == CompileFrom(src, sp + 1, eof, room, st.Emit(EncodeInstr(Item(AtomOf(s), Star))))
  {
    PrefixSplits([ASTERISK], [], src, sp);
    assert src[sp + 0] == ASTERISK;
    assert st.Emit(AtomCode(s)).code[|st.code|] == Opcode(AtomOf(s));
    StarredCode(st, s);
  }

  lemma CompilesInterval(src: seq<byte>, sp: nat, eof: byte, room: nat, st: CompState, s: Symbol, t: Times)
    requires NulFree(src) && sp <= |src| && st.Valid() && |st.code| + |AtomCode(s)| < room
    requires !t.One? && !t.Asterisk? && ValidTimes(t, eof) && ValidTimes(t, 0) && ShowTimes(t) <= src[sp..]
    ensures sp + |ShowTimes(t)| <= |src|
    ensures CompileFrom(src, sp, eof, room, st.Emit(AtomCode(s)))
            == CompileFrom(src, sp + |ShowTimes(t)|, eof, room, st.Emit(EncodeInstr(Item(AtomOf(s), QuantOf(t)))))
  {
    hide CompileFrom, ShowTimes, ScanInterval, EncodeInstr;
    IntervalTextAt(src, sp, t);
    RangedCode(st, s, QuantOf(t));
    IntervalStep(src, sp, eof, room, st.Emit(AtomCode(s)), QuantOf(t).lo, QuantOf(t).hi, sp + |ShowTimes(t)|);
  }

  lemma IntervalTextAt(src: seq<byte>, sp: nat, t: Times)
    requires NulFree(src) && sp <= |src| && !t.One? && !t.Asterisk? && ValidTimes(t, 0) && ShowTimes(t) <= src[sp..]
    ensures sp + 1 < |src| && src[sp] == BACKSLASH && src[sp + 1] == LBRACE && sp + |ShowTimes(t)| <= |src|
    ensures ScanInterval(src, sp + 2) == Interval(QuantOf(t).lo, QuantOf(t).hi, sp + |ShowTimes(t)|)
  {
    assert ShowTimes(t) == [BACKSLASH, LBRACE] + IntervalText(t);
    assert sp + 2 <= |src| && src[sp + 0] == BACKSLASH && src[sp + 1] == LBRACE && IntervalText(t) <= src[sp + 2..] by {
      PrefixSplits([BACKSLASH, LBRACE], IntervalText(t), src, sp);
    }
    assert sp + |ShowTimes(t)| <= |src| by {
      PrefixSplits(ShowTimes(t), [], src, sp);
    }
    ScansInterval(src, sp + 2, t);
  }

  lemma IntervalStep(src: seq<byte>, sp: nat, eof: byte, room: nat, st: CompState, lo: byte, hi: byte, j: nat)
    requires NulFree(src) && sp + 1 < |src| && st.Valid() && |st.code| < room && st.lastep.Some? && eof != BACKSLASH
    requires src[sp] == BACKSLASH && src[sp + 1] == LBRACE && ScanInterval(src, sp + 2) == Interval(lo, hi, j)
    ensures var k := st.lastep.value;
            CompileFrom(src, sp, eof, room, st)
            == CompileFrom(src, j, eof, room, st.(code := st.code[k := OrRange(st.code[k])] + [lo, hi]))
  {
    assert CompileFrom(src, sp, eof, room, st) == CompileEscape(src, sp, eof, room, st);
    assert CompileEscape(src, sp, eof, room, st) == CompileBrace(src, sp, eof, room, st);
  }

  /** Replacing the byte after x by z, and adding w at the end. */
  lemma Requantified(x: seq<byte>, y: byte, o: seq<byte>, z: byte, w: seq<byte>)
    ensures (x + ([y] + o))[|x| := z] + w == x + ([z] + o + w)
  {
  }

  lemma AtomCodeParts(s: Symbol, q: Quant)
    ensures AtomCode(s) == [Opcode(AtomOf(s))] + Operand(AtomOf(s))
    ensures EncodeInstr(Item(AtomOf(s), q)) == [Opcode(AtomOf(s)) + QuantBits(q)] + Operand(AtomOf(s)) + Bounds(q)
  {
  }

  lemma StarredCode(st: CompState, s: Symbol)
    requires st.Valid()
    ensures var st1, k := st.Emit(AtomCode(s)), |st.code|;
            st1.(code := st1.code[k := OrStar(st1.code[k])]) == st.Emit(EncodeInstr(Item(AtomOf(s), Star)))
  {
    var op, o := Opcode(AtomOf(s)), Operand(AtomOf(s));
    AtomCodeParts(s, Star);
    var st1, k := st.Emit(AtomCode(s)), |st.code|;
    assert st1.code[k] == op;
    assert st1.code[k := op + STAR] == st.code + EncodeInstr(Item(AtomOf(s), Star)) by {
      Requantified(st.code, op, o, op + STAR, []);
    }
  }

  lemma RangedCode(st: CompState, s: Symbol, q: Quant)
    requires st.Valid() && q.Range?
    ensures var st1, k := st.Emit(AtomCode(s)), |st.code|;
            st1.(code := st1.code[k := OrRange(st1.code[k])] + [q.lo, q.hi]) == st.Emit(EncodeInstr(Item(AtomOf(s), q)))
  {
    var op, o := Opcode(AtomOf(s)), Operand(AtomOf(s));
    AtomCodeParts(s, q);
    var st1, k := st.Emit(AtomCode(s)), |st.code|;
    assert st1.code[k] == op;
    assert st1.code[k := op + RNGE] + [q.lo, q.hi] == st.code + EncodeInstr(Item(AtomOf(s), q)) by {
      Requantified(st.code, op, o, op + RNGE, [q.lo, q.hi]);
    }
  }

  // ----- whole patterns -----

  /** Whatever follows a piece starts in neither the delimiter nor a newline, unless it is the delimiter. */
  lemma NextByte(pieces: seq<Piece>, prev: Prev, open: seq<byte>, nbra: nat, eof: byte, dollar: bool)
    requires ValidPieces(pieces, prev, open, nbra, eof, dollar) && (pieces != [] || dollar)
    ensures var next := (ShowPieces(pieces) + ShowEnd(dollar, eof))[0]; next != eof && next != NEWLINE
  {
    if pieces != [] {
      assert (ShowPieces(pieces) + ShowEnd(dollar, eof))[0] == ShowPiece(pieces[0])[0];
    }
  }

  /** What compiling results in when prog's code is still to come: that code, or no room for it. */
  function Translated(st: CompState, prog: seq<Instr>, room: nat, end: nat, groups: nat): Compiled {
    if |st.code| + |Encode(prog)| <= room then Done(st.code + Encode(prog), end, groups) else Failed(50)
  }

  lemma EncodeCons(st: CompState, i: Instr, prog: seq<Instr>, room: nat, end: nat, groups: nat, st2: CompState)
    requires st2.code == st.code + EncodeInstr(i)
    ensures Translated(st, [i] + prog, room, end, groups) == Translated(st2, prog, room, end, groups)
    ensures Groups([i] + prog) == (if i.Bra? then 1 else 0) + Groups(prog)
  {
    hide Encode, Groups, EncodeInstr;
    EncodeFirst(i, prog);
    ConcatAssociates(st.code, EncodeInstr(i), Encode(prog));
  }

  lemma EncodeFirst(i: Instr, prog: seq<Instr>)
    ensures Encode([i] + prog) == EncodeInstr(i) + Encode(prog)
    ensures Groups([i] + prog) == (if i.Bra? then 1 else 0) + Groups(prog)
  {
    hide EncodeInstr;
    assert ([i] + prog)[1..] == prog;
  }

  /** What compiling the pieces from sp on results in. */
  function Expected(st: CompState, pieces: seq<Piece>, prev: Prev, open: seq<byte>, nbra: nat, eof: byte, dollar: bool,
                    room: nat, sp: nat): Compiled
    requires ValidPieces(pieces, prev, open, nbra, eof, dollar)
  {
    var prog := Instructions(pieces, prev, open, nbra, eof, dollar);
    Translated(st, prog, room, sp + |ShowPieces(pieces)| + |ShowEnd(dollar, eof)|, nbra + Groups(prog))
  }

  lemma ExpectedSymbol(st: CompState, pieces: seq<Piece>, prev: Prev, open: seq<byte>, nbra: nat, eof: byte,
                       dollar: bool,
                       room: nat, sp: nat, st2: CompState)
    requires ValidPieces(pieces, prev, open, nbra, eof, dollar) && pieces != [] && pieces[0].Sym?
    requires ValidTimes(pieces[0].times, 0)
    requires st2.code == st.code + EncodeInstr(Item(AtomOf(pieces[0].symbol), QuantOf(pieces[0].times)))
    ensures Expected(st, pieces, prev, open, nbra, eof, dollar, room, sp)
            == Expected(st2, pieces[1..], Atomic, open, nbra, eof, dollar, room, sp + |ShowPiece(pieces[0])|)
  {
    hide Encode, EncodeInstr, Groups, Translated, ShowPiece, ShowEnd, AtomOf, QuantOf;
    hide ValidPieces, Instructions, ShowPieces, ValidTimes;
    SymbolFirst(pieces, prev, open, nbra, eof, dollar);
    var prog := Instructions(pieces[1..], Atomic, open, nbra, eof, dollar);
    EncodeCons(st, Item(AtomOf(pieces[0].symbol), QuantOf(pieces[0].times)), prog, room,
               sp + |ShowPieces(pieces)| + |ShowEnd(dollar, eof)|, nbra + Groups(prog), st2);
  }

  lemma SymbolFirst(pieces: seq<Piece>, prev: Prev, open: seq<byte>, nbra: nat, eof: byte, dollar: bool)
    requires ValidPieces(pieces, prev, open, nbra, eof, dollar) && pieces != [] && pieces[0].Sym?
    requires ValidTimes(pieces[0].times, 0)
    ensures ValidPieces(pieces[1..], Atomic, open, nbra, eof, dollar)
    ensures Instructions(pieces, prev, open, nbra, eof, dollar)
            == [Item(AtomOf(pieces[0].symbol), QuantOf(pieces[0].times))]
               + Instructions(pieces[1..], Atomic, open, nbra, eof, dollar)
    ensures |ShowPieces(pieces)| == |ShowPiece(pieces[0])| + |ShowPieces(pieces[1..])|
  {
    hide AtomOf, QuantOf, ShowPiece, ValidTimes;
  }

  lemma RefFirst(pieces: seq<Piece>, prev: Prev, open: seq<byte>, nbra: nat, eof: byte, dollar: bool)
    requires ValidPieces(pieces, prev, open, nbra, eof, dollar) && pieces != [] && pieces[0].Ref?
    ensures 1 <= pieces[0].group <= 9 && ValidPieces(pieces[1..], Atomic, open, nbra, eof, dollar)
    ensures Instructions(pieces, prev, open, nbra, eof, dollar)
            == [Back(pieces[0].group - 1)] + Instructions(pieces[1..], Atomic, open, nbra, eof, dollar)
    ensures |ShowPieces(pieces)| == 2 + |ShowPieces(pieces[1..])|
  {
  }

  lemma OpenFirst(pieces: seq<Piece>, prev: Prev, open: seq<byte>, nbra: nat, eof: byte, dollar: bool)
    requires ValidPieces(pieces, prev, open, nbra, eof, dollar) && pieces != [] && pieces[0].Open?
    ensures nbra < NBRA && ValidPieces(pieces[1..], Paren, open + [nbra], nbra + 1, eof, dollar)
    ensures Instructions(pieces, prev, open, nbra, eof, dollar)
            == [Bra(nbra)] + Instructions(pieces[1..], Paren, open + [nbra], nbra + 1, eof, dollar)
    ensures |ShowPieces(pieces)| == 2 + |ShowPieces(pieces[1..])|
  {
  }

  lemma CloseFirst(pieces: seq<Piece>, prev: Prev, open: seq<byte>, nbra: nat, eof: byte, dollar: bool)
    requires ValidPieces(pieces, prev, open, nbra, eof, dollar) && pieces != [] && pieces[0].Close?
    ensures open != [] && ValidPieces(pieces[1..], Paren, open[..|open| - 1], nbra, eof, dollar)
    ensures Instructions(pieces, prev, open, nbra, eof, dollar)
            == [Ket(open[|open| - 1])] + Instructions(pieces[1..], Paren, open[..|open| - 1], nbra, eof, dollar)
    ensures |ShowPieces(pieces)| == 2 + |ShowPieces(pieces[1..])|
  {
  }

  lemma ExpectedRef(st: CompState, pieces: seq<Piece>, prev: Prev, open: seq<byte>, nbra: nat, eof: byte, dollar: bool,
                    room: nat, sp: nat, st2: CompState)
    requires ValidPieces(pieces, prev, open, nbra, eof, dollar) && pieces != [] && pieces[0].Ref?
    requires st2.code == st.code + [CBACK, pieces[0].group - 1]
    ensures Expected(st, pieces, prev, open, nbra, eof, dollar, room, sp)
            == Expected(st2, pieces[1..], Atomic, open, nbra, eof, dollar, room, sp + 2)
  {
    hide Encode, EncodeInstr, Groups, Translated, ShowEnd, ValidPieces, Instructions, ShowPieces;
    RefFirst(pieces, prev, open, nbra, eof, dollar);
    var prog := Instructions(pieces[1..], Atomic, open, nbra, eof, dollar);
    GroupBytes(Back(pieces[0].group - 1));
    EncodeCons(st, Back(pieces[0].group - 1), prog, room,
               sp + |ShowPieces(pieces)| + |ShowEnd(dollar, eof)|, nbra + Groups(prog), st2);
  }

  lemma ExpectedOpen(st: CompState, pieces: seq<Piece>, prev: Prev, open: seq<byte>, nbra: nat, eof: byte, dollar: bool,
                     room: nat, sp: nat, st2: CompState)
    requires ValidPieces(pieces, prev, open, nbra, eof, dollar) && pieces != [] && pieces[0].Open?
    requires st2.code == st.code + [CBRA, nbra]
    ensures Expected(st, pieces, prev, open, nbra, eof, dollar, room, sp)
            == Expected(st2, pieces[1..], Paren, open + [nbra], nbra + 1, eof, dollar, room, sp + 2)
  {
    hide Encode, EncodeInstr, Groups, Translated, ShowEnd, ValidPieces, Instructions, ShowPieces;
    OpenFirst(pieces, prev, open, nbra, eof, dollar);
    var prog := Instructions(pieces[1..], Paren, open + [nbra], nbra + 1, eof, dollar);
    GroupBytes(Bra(nbra));
    EncodeCons(st, Bra(nbra), prog, room,
               sp + |ShowPieces(pieces)| + |ShowEnd(dollar, eof)|, nbra + 1 + Groups(prog), st2);
  }

  lemma ExpectedClose(st: CompState, pieces: seq<Piece>, prev: Prev, open: seq<byte>, nbra: nat, eof: byte,
                      dollar: bool,
                      room: nat, sp: nat, st2: CompState)
    requires ValidPieces(pieces, prev, open, nbra, eof, dollar) && pieces != [] && pieces[0].Close?
    requires st2.code == st.code + [CKET, open[|open| - 1]]
    ensures Expected(st, pieces, prev, open, nbra, eof, dollar, room, sp)
            == Expected(st2, pieces[1..], Paren, open[..|open| - 1], nbra, eof, dollar, room, sp + 2)
  {
    hide Encode, EncodeInstr, Groups, Translated, ShowEnd, ValidPieces, Instructions, ShowPieces;
    CloseFirst(pieces, prev, open, nbra, eof, dollar);
    var prog := Instructions(pieces[1..], Paren, open[..|open| - 1], nbra, eof, dollar);
    GroupBytes(Ket(open[|open| - 1]));
    EncodeCons(st, Ket(open[|open| - 1]), prog, room,
               sp + |ShowPieces(pieces)| + |ShowEnd(dollar, eof)|, nbra + Groups(prog), st2);
  }

  /** The text at sp is that of the pieces and the end, and the compiler's state fits what came before. */
  ghost predicate Reading(src: seq<byte>, sp: nat, eof: byte, st: CompState, pieces: seq<Piece>, prev: Prev,
                          open: seq<byte>, nbra: nat, dollar: bool)
  {
    && NulFree(src) && sp <= |src| && ShowPieces(pieces) + ShowEnd(dollar, eof) <= src[sp..]
    && eof != 0 && ValidPieces(pieces, prev, open, nbra, eof, dollar)
    && st.Valid() && Follows(st, prev) && st.bracket == open && st.nbra == nbra
  }

  lemma ConcatAssociates(x: seq<byte>, y: seq<byte>, z: seq<byte>)
    ensures x + y + z == x + (y + z)
  {
  }

  lemma SplitFirst(src: seq<byte>, sp: nat, eof: byte, pieces: seq<Piece>, dollar: bool)
    requires sp <= |src| && pieces != [] && ShowPieces(pieces) + ShowEnd(dollar, eof) <= src[sp..]
    ensures sp + |ShowPiece(pieces[0])| <= |src| && ShowPiece(pieces[0]) <= src[sp..]
    ensures ShowPieces(pieces[1..]) + ShowEnd(dollar, eof) <= src[sp + |ShowPiece(pieces[0])|..]
  {
    var piece, later, end := ShowPiece(pieces[0]), ShowPieces(pieces[1..]), ShowEnd(dollar, eof);
    assert ShowPieces(pieces) == piece + later;
    ConcatAssociates(piece, later, end);
    PrefixSplits(piece, later + end, src, sp);
  }

  /** The pieces' text compiles to the encoding of their instructions, if and only if that fits. */
  lemma {:induction false} CompilesPieces(src: seq<byte>, sp: nat, eof: byte, room: nat, st: CompState,
                                          pieces: seq<Piece>,
                                          prev: Prev, open: seq<byte>, nbra: nat, dollar: bool)
    requires Reading(src, sp, eof, st, pieces, prev, open, nbra, dollar)
    ensures CompileFrom(src, sp, eof, room, st) == Expected(st, pieces, prev, open, nbra, eof, dollar, room, sp)
    decreases |pieces|, 1
  {
    if |st.code| >= room {
      assert |Encode(Instructions(pieces, prev, open, nbra, eof, dollar))| >= 1;
    } else if pieces == [] {
      assert ShowPieces(pieces) + ShowEnd(dollar, eof) == ShowEnd(dollar, eof);
      CompilesEnd(src, sp, eof, room, st, dollar);
    } else {
      SplitFirst(src, sp, eof, pieces, dollar);
      match pieces[0]
      case Sym(_, _) => CompilesSymPiece(src, sp, eof, room, st, pieces, prev, open, nbra, dollar);
      case Ref(_) => CompilesRefPiece(src, sp, eof, room, st, pieces, prev, open, nbra, dollar);
      case Open => CompilesOpen(src, sp, eof, room, st, pieces, prev, open, nbra, dollar);
      case Close => CompilesClose(src, sp, eof, room, st, pieces, prev, open, nbra, dollar);
    }
  }

  lemma CompilesEnd(src: seq<byte>, sp: nat, eof: byte, room: nat, st: CompState, dollar: bool)
    requires NulFree(src) && sp <= |src| && ShowEnd(dollar, eof) <= src[sp..] && st.Valid() && st.bracket == []
    requires eof != 0 && (dollar ==> eof != DOLLAR) && |st.code| < room
    ensures var prog := if dollar then [Dol, Eof] else [Eof];
            && CompileFrom(src, sp, eof, room, st) == Translated(st, prog, room, sp + |ShowEnd(dollar, eof)|, st.nbra)
            && Groups(prog) == 0
  {
    PrefixSplits(ShowEnd(dollar, eof), [], src, sp);
    assert src[sp + 0] == ShowEnd(dollar, eof)[0];
    assert Encode([Eof]) == [CCEOF];
    if dollar {
      assert src[sp + 1] == eof;
      assert [Dol, Eof][1..] == [Eof];
      assert Encode([Dol, Eof]) == [CDOL, CCEOF];
      assert st.code + [CDOL] + [CCEOF] == st.code + [CDOL, CCEOF];
      assert CompileFrom(src, sp, eof, room, st) == CompileFrom(src, sp + 1, eof, room, st.Emit([CDOL]));
    }
  }

  lemma {:induction false} CompilesSymPiece(src: seq<byte>, sp: nat, eof: byte, room: nat, st: CompState,
                                            pieces: seq<Piece>,
                                            prev: Prev, open: seq<byte>, nbra: nat, dollar: bool)
    requires Reading(src, sp, eof, st, pieces, prev, open, nbra, dollar) && pieces != [] && pieces[0].Sym?
    requires |st.code| < room
    ensures CompileFrom(src, sp, eof, room, st) == Expected(st, pieces, prev, open, nbra, eof, dollar, room, sp)
    decreases |pieces|, 0
  {
    hide *;
    var s, t := pieces[0].symbol, pieces[0].times;
    SymTimes(src, sp, eof, st, pieces, prev, open, nbra, dollar);
    var st2, j := st.Emit(EncodeInstr(Item(AtomOf(s), QuantOf(t)))), sp + |ShowPiece(pieces[0])|;
    SymStep(src, sp, eof, room, st, pieces, prev, open, nbra, dollar, st2, j);
    CompilesPieces(src, j, eof, room, st2, pieces[1..], Atomic, open, nbra, dollar);
    SymExpected(st, pieces, prev, open, nbra, eof, dollar, room, sp, st2, j);
  }

  lemma SymTimes(src: seq<byte>, sp: nat, eof: byte, st: CompState, pieces: seq<Piece>, prev: Prev, open: seq<byte>,
                 nbra: nat, dollar: bool)
    requires Reading(src, sp, eof, st, pieces, prev, open, nbra, dollar) && pieces != [] && pieces[0].Sym?
    ensures ValidTimes(pieces[0].times, 0) && ValidPieces(pieces, prev, open, nbra, eof, dollar)
  {
  }

  lemma SymExpected(st: CompState, pieces: seq<Piece>, prev: Prev, open: seq<byte>, nbra: nat, eof: byte, dollar: bool,
                    room: nat, sp: nat, st2: CompState, j: nat)
    requires ValidPieces(pieces, prev, open, nbra, eof, dollar) && pieces != [] && pieces[0].Sym?
    requires ValidTimes(pieces[0].times, 0)
    requires st2 == st.Emit(EncodeInstr(Item(AtomOf(pieces[0].symbol), QuantOf(pieces[0].times))))
    requires j == sp + |ShowPiece(pieces[0])|
    ensures ValidPieces(pieces[1..], Atomic, open, nbra, eof, dollar)
    ensures Expected(st, pieces, prev, open, nbra, eof, dollar, room, sp)
            == Expected(st2, pieces[1..], Atomic, open, nbra, eof, dollar, room, j)
  {
    ExpectedSymbol(st, pieces, prev, open, nbra, eof, dollar, room, sp, st2);
  }

  lemma SymStep(src: seq<byte>, sp: nat, eof: byte, room: nat, st: CompState, pieces: seq<Piece>,
                prev: Prev, open: seq<byte>, nbra: nat, dollar: bool, st2: CompState, j: nat)
    requires Reading(src, sp, eof, st, pieces, prev, open, nbra, dollar) && pieces != [] && pieces[0].Sym?
    requires |st.code| < room
    requires j == sp + |ShowPiece(pieces[0])| && ValidTimes(pieces[0].times, 0)
    requires st2 == st.Emit(EncodeInstr(Item(AtomOf(pieces[0].symbol), QuantOf(pieces[0].times))))
    ensures Reading(src, j, eof, st2, pieces[1..], Atomic, open, nbra, dollar)
    ensures CompileFrom(src, sp, eof, room, st) == CompileFrom(src, j, eof, room, st2)
  {
    hide *;
    var s, t := pieces[0].symbol, pieces[0].times;
    var i, st1 := sp + |ShowSymbol(s)|, st.Emit(AtomCode(s));
    var last := t.One? && pieces[1..] == [] && !dollar;
    assert sp <= i <= j <= |src| && j == i + |ShowTimes(t)| by {
      SymText(src, sp, eof, st, pieces, prev, open, nbra, dollar, j);
    }
    SymState(src, sp, eof, st, pieces, prev, open, nbra, dollar, st1, st2, j);
    SymAhead(src, sp, eof, room, st, pieces, prev, open, nbra, dollar, j);
    SymPiece(src, sp, i, j, eof, room, st, st1, st2, s, t, prev, last);
  }

  lemma SymAhead(src: seq<byte>, sp: nat, eof: byte, room: nat, st: CompState, pieces: seq<Piece>,
                 prev: Prev, open: seq<byte>, nbra: nat, dollar: bool, j: nat)
    requires Reading(src, sp, eof, st, pieces, prev, open, nbra, dollar) && pieces != [] && pieces[0].Sym?
    requires |st.code| < room
    requires j == sp + |ShowPiece(pieces[0])|
    ensures var last := pieces[0].times.One? && pieces[1..] == [] && !dollar;
            SymbolAhead(src, sp, eof, room, st, pieces[0].symbol, prev, last)
    ensures TimesAhead(src, sp + |ShowSymbol(pieces[0].symbol)|, eof, st, pieces[0].times)
  {
    SymText(src, sp, eof, st, pieces, prev, open, nbra, dollar, j);
  }

  /** The text of the first piece, and what follows it. */
  lemma SymText(src: seq<byte>, sp: nat, eof: byte, st: CompState, pieces: seq<Piece>,
                prev: Prev, open: seq<byte>, nbra: nat, dollar: bool, j: nat)
    requires Reading(src, sp, eof, st, pieces, prev, open, nbra, dollar) && pieces != [] && pieces[0].Sym?
    requires j == sp + |ShowPiece(pieces[0])|
    ensures var s, t := pieces[0].symbol, pieces[0].times; var i := sp + |ShowSymbol(s)|;
            && sp <= i <= j <= |src| && j == i + |ShowTimes(t)|
            && ShowSymbol(s) <= src[sp..] && ShowTimes(t) <= src[i..]
            && (s == Plain(DOLLAR) ==> At(src, sp + 1) != eof && At(src, sp + 1) != NEWLINE)
  {
    var s, t := pieces[0].symbol, pieces[0].times;
    SplitFirst(src, sp, eof, pieces, dollar);
    SplitSymbol(src, sp, s, t);
    if s == Plain(DOLLAR) {
      DollarText(src, sp, eof, pieces, prev, open, nbra, dollar);
    }
  }

  lemma DollarText(src: seq<byte>, sp: nat, eof: byte, pieces: seq<Piece>, prev: Prev, open: seq<byte>, nbra: nat,
                   dollar: bool)
    requires NulFree(src) && sp <= |src| && ShowPieces(pieces) + ShowEnd(dollar, eof) <= src[sp..]
    requires ValidPieces(pieces, prev, open, nbra, eof, dollar) && pieces != [] && pieces[0].Sym?
    requires pieces[0].symbol == Plain(DOLLAR)
    ensures sp + 1 <= |src| && At(src, sp + 1) != eof && At(src, sp + 1) != NEWLINE
  {
    SplitFirst(src, sp, eof, pieces, dollar);
    assert ShowPiece(pieces[0]) == [DOLLAR] + ShowTimes(pieces[0].times);
    AfterDollar(src, sp, eof, pieces[0].times, pieces[1..], open, nbra, dollar);
  }

  /** What the compiler knows behind the first piece. */
  lemma SymState(src: seq<byte>, sp: nat, eof: byte, st: CompState, pieces: seq<Piece>,
                 prev: Prev, open: seq<byte>, nbra: nat, dollar: bool, st1: CompState, st2: CompState, j: nat)
    requires Reading(src, sp, eof, st, pieces, prev, open, nbra, dollar) && pieces != [] && pieces[0].Sym?
    requires j == sp + |ShowPiece(pieces[0])| && ValidTimes(pieces[0].times, 0)
    requires st1 == st.Emit(AtomCode(pieces[0].symbol))
    requires st2 == st.Emit(EncodeInstr(Item(AtomOf(pieces[0].symbol), QuantOf(pieces[0].times))))
    ensures NulFree(src) && st.Valid() && st1.Valid() && st2.Valid()
    ensures Reading(src, j, eof, st2, pieces[1..], Atomic, open, nbra, dollar)
  {
    hide EncodeInstr, ShowPieces, ShowPiece, ShowEnd, AtomOf, QuantOf, Follows;
    SplitFirst(src, sp, eof, pieces, dollar);
    ItemFollows(st, AtomOf(pieces[0].symbol), QuantOf(pieces[0].times));
  }

  lemma SplitSymbol(src: seq<byte>, sp: nat, s: Symbol, t: Times)
    requires sp <= |src| && ShowPiece(Sym(s, t)) <= src[sp..]
    ensures sp + |ShowSymbol(s)| + |ShowTimes(t)| <= |src| && |ShowPiece(Sym(s, t))| == |ShowSymbol(s)| + |ShowTimes(t)|
    ensures ShowSymbol(s) <= src[sp..] && ShowTimes(t) <= src[sp + |ShowSymbol(s)|..]
  {
    PrefixSplits(ShowSymbol(s), ShowTimes(t), src, sp);
  }

  /** One symbol with its quantifier. */
  lemma SymPiece(src: seq<byte>, sp: nat, i: nat, j: nat, eof: byte, room: nat, st: CompState, st1: CompState,
                 st2: CompState,
                 s: Symbol, t: Times, prev: Prev, last: bool)
    requires NulFree(src) && sp <= i <= j <= |src| && st.Valid() && st1.Valid() && st2.Valid()
    requires SymbolAhead(src, sp, eof, room, st, s, prev, last) && i == sp + |ShowSymbol(s)|
    requires st1 == st.Emit(AtomCode(s))
    requires TimesAhead(src, i, eof, st, t) && j == i + |ShowTimes(t)|
    requires ValidTimes(t, 0) && st2 == st.Emit(EncodeInstr(Item(AtomOf(s), QuantOf(t))))
    ensures CompileFrom(src, sp, eof, room, st) == CompileFrom(src, j, eof, room, st2)
  {
    hide *;
    CompilesSymbol(src, sp, eof, room, st, s, prev, last);
    CompilesTimes(src, i, eof, room, st, s, t);
  }

  lemma ItemFollows(st: CompState, a: Atom, q: Quant)
    requires st.Valid()
    ensures Follows(st.Emit(EncodeInstr(Item(a, q))), Atomic)
  {
    assert (st.code + EncodeInstr(Item(a, q)))[|st.code|] == Opcode(a) + QuantBits(q);
  }

  lemma AfterDollar(src: seq<byte>, sp: nat, eof: byte, t: Times, rest: seq<Piece>, open: seq<byte>, nbra: nat,
                    dollar: bool)
    requires NulFree(src) && sp + 1 + |ShowTimes(t)| <= |src| && [DOLLAR] + ShowTimes(t) <= src[sp..]
    requires ShowPieces(rest) + ShowEnd(dollar, eof) <= src[sp + 1 + |ShowTimes(t)|..]
    requires !(t.One? && rest == [] && !dollar) && ValidTimes(t, eof)
    requires ValidPieces(rest, Atomic, open, nbra, eof, dollar)
    ensures At(src, sp + 1) != eof && At(src, sp + 1) != NEWLINE
  {
    if t.One? {
      NextByte(rest, Atomic, open, nbra, eof, dollar);
      PrefixSplits(ShowPieces(rest) + ShowEnd(dollar, eof), [], src, sp + 1);
      assert src[sp + 1 + 0] == (ShowPieces(rest) + ShowEnd(dollar, eof))[0];
    } else {
      PrefixSplits([DOLLAR], ShowTimes(t), src, sp);
      PrefixSplits(ShowTimes(t), [], src, sp + 1);
      assert src[sp + 1 + 0] == ShowTimes(t)[0];
    }
  }

  lemma TwoBytes(src: seq<byte>, sp: nat, text: seq<byte>)
    requires sp + 2 <= |src| && |text| == 2 && text <= src[sp..]
    ensures src[sp] == text[0] && src[sp + 1] == text[1]
  {
    PrefixSplits(text, [], src, sp);
    assert src[sp + 0] == text[0];
  }

  /** A backslash and a character that stores two bytes, or opens or closes a group. */
  lemma EscapeStep(src: seq<byte>, sp: nat, eof: byte, room: nat, st: CompState)
    requires NulFree(src) && sp + 2 <= |src| && st.Valid() && |st.code| < room && src[sp] == BACKSLASH
    requires eof != BACKSLASH
    ensures src[sp + 1] == LPAREN && st.nbra < NBRA ==>
              CompileFrom(src, sp, eof, room, st)
              == (var st2 := st.Emit([CBRA, st.nbra]).(bracket := st.bracket + [st.nbra], nbra := st.nbra + 1);
                  CompileFrom(src, sp + 2, eof, room, st2))
    ensures src[sp + 1] == RPAREN && st.bracket != [] ==>
              CompileFrom(src, sp, eof, room, st)
              == (var open, top := st.bracket[..|st.bracket| - 1], st.bracket[|st.bracket| - 1];
                  CompileFrom(src, sp + 2, eof, room, st.Emit([CKET, top]).(bracket := open, closed := st.closed + 1)))
    ensures ONE <= src[sp + 1] <= NINE && src[sp + 1] - ONE < st.closed ==>
              CompileFrom(src, sp, eof, room, st)
              == CompileFrom(src, sp + 2, eof, room, st.Emit([CBACK, src[sp + 1] - ONE]))
  {
    assert CompileFrom(src, sp, eof, room, st) == CompileEscape(src, sp, eof, room, st);
  }

  lemma Emitted(st: CompState, st2: CompState, bytes: seq<byte>)
    requires st2 == st.Emit(bytes).(bracket := st2.bracket, nbra := st2.nbra, closed := st2.closed)
    ensures st2.code == st.code + bytes
  {
  }

  lemma ReadingFirst(src: seq<byte>, sp: nat, eof: byte, st: CompState, pieces: seq<Piece>, prev: Prev,
                     open: seq<byte>, nbra: nat, dollar: bool)
    requires Reading(src, sp, eof, st, pieces, prev, open, nbra, dollar) && pieces != []
    ensures pieces[0].Ref? ==> 1 <= pieces[0].group <= 9
    ensures pieces[0].Open? ==> nbra < 9 == NBRA
    ensures pieces[0].Close? ==> open != []
    ensures ValidPieces(pieces, prev, open, nbra, eof, dollar)
  {
  }

  lemma {:induction false} CompilesRefPiece(src: seq<byte>, sp: nat, eof: byte, room: nat, st: CompState,
                                            pieces: seq<Piece>,
                                            prev: Prev, open: seq<byte>, nbra: nat, dollar: bool)
    requires Reading(src, sp, eof, st, pieces, prev, open, nbra, dollar) && pieces != [] && pieces[0].Ref?
    requires |st.code| < room
    ensures CompileFrom(src, sp, eof, room, st) == Expected(st, pieces, prev, open, nbra, eof, dollar, room, sp)
    decreases |pieces|, 0
  {
    hide *;
    ReadingFirst(src, sp, eof, st, pieces, prev, open, nbra, dollar);
    var st2 := st.Emit([CBACK, pieces[0].group - 1]);
    RefStep(src, sp, eof, room, st, pieces, prev, open, nbra, dollar, st2);
    CompilesPieces(src, sp + 2, eof, room, st2, pieces[1..], Atomic, open, nbra, dollar);
  }

  lemma RefStep(src: seq<byte>, sp: nat, eof: byte, room: nat, st: CompState, pieces: seq<Piece>,
                prev: Prev, open: seq<byte>, nbra: nat, dollar: bool, st2: CompState)
    requires Reading(src, sp, eof, st, pieces, prev, open, nbra, dollar) && pieces != [] && pieces[0].Ref?
    requires |st.code| < room
    requires 1 <= pieces[0].group <= 9
    requires st2 == st.Emit([CBACK, pieces[0].group - 1])
    ensures Reading(src, sp + 2, eof, st2, pieces[1..], Atomic, open, nbra, dollar)
    ensures CompileFrom(src, sp, eof, room, st) == CompileFrom(src, sp + 2, eof, room, st2)
    ensures Expected(st, pieces, prev, open, nbra, eof, dollar, room, sp)
            == Expected(st2, pieces[1..], Atomic, open, nbra, eof, dollar, room, sp + 2)
  {
    hide *;
    RefReading(src, sp, eof, room, st, pieces, prev, open, nbra, dollar, st2);
    RefCompiles(src, sp, eof, room, st, pieces, prev, open, nbra, dollar, st2);
    ReadingFirst(src, sp, eof, st, pieces, prev, open, nbra, dollar);
    Emitted(st, st2, [CBACK, pieces[0].group - 1]);
    ExpectedRef(st, pieces, prev, open, nbra, eof, dollar, room, sp, st2);
  }

  lemma RefReading(src: seq<byte>, sp: nat, eof: byte, room: nat, st: CompState, pieces: seq<Piece>,
                   prev: Prev, open: seq<byte>, nbra: nat, dollar: bool, st2: CompState)
    requires Reading(src, sp, eof, st, pieces, prev, open, nbra, dollar) && pieces != [] && pieces[0].Ref?
    requires |st.code| < room
    requires 1 <= pieces[0].group <= 9
    requires st2 == st.Emit([CBACK, pieces[0].group - 1])
    ensures Reading(src, sp + 2, eof, st2, pieces[1..], Atomic, open, nbra, dollar)
  {
    hide ShowPieces, ShowPiece, ShowEnd;
    MarkText(src, sp, eof, pieces, dollar);
    assert st2.code[|st.code|] == CBACK;
  }

  lemma MarkText(src: seq<byte>, sp: nat, eof: byte, pieces: seq<Piece>, dollar: bool)
    requires sp <= |src| && pieces != [] && !pieces[0].Sym? && (pieces[0].Ref? ==> 1 <= pieces[0].group <= 9)
    requires ShowPieces(pieces) + ShowEnd(dollar, eof) <= src[sp..]
    ensures sp + 2 <= |src| && ShowPieces(pieces[1..]) + ShowEnd(dollar, eof) <= src[sp + 2..]
  {
    hide ShowPieces, ShowEnd;
    SplitFirst(src, sp, eof, pieces, dollar);
  }

  lemma RefCompiles(src: seq<byte>, sp: nat, eof: byte, room: nat, st: CompState, pieces: seq<Piece>,
                    prev: Prev, open: seq<byte>, nbra: nat, dollar: bool, st2: CompState)
    requires Reading(src, sp, eof, st, pieces, prev, open, nbra, dollar) && pieces != [] && pieces[0].Ref?
    requires |st.code| < room
    requires 1 <= pieces[0].group <= 9
    requires st2 == st.Emit([CBACK, pieces[0].group - 1])
    ensures NulFree(src) && sp + 2 <= |src| && st.Valid() && st2.Valid()
    ensures CompileFrom(src, sp, eof, room, st) == CompileFrom(src, sp + 2, eof, room, st2)
  {
    hide CompileFrom, ShowPieces, ShowEnd;
    SplitFirst(src, sp, eof, pieces, dollar);
    TwoBytes(src, sp, ShowPiece(pieces[0]));
    EscapeStep(src, sp, eof, room, st);
  }

  lemma {:induction false} CompilesOpen(src: seq<byte>, sp: nat, eof: byte, room: nat, st: CompState,
                                        pieces: seq<Piece>,
                                        prev: Prev, open: seq<byte>, nbra: nat, dollar: bool)
    requires Reading(src, sp, eof, st, pieces, prev, open, nbra, dollar) && pieces != [] && pieces[0].Open?
    requires |st.code| < room
    ensures CompileFrom(src, sp, eof, room, st) == Expected(st, pieces, prev, open, nbra, eof, dollar, room, sp)
    decreases |pieces|, 0
  {
    hide *;
    ReadingFirst(src, sp, eof, st, pieces, prev, open, nbra, dollar);
    var st2 := st.Emit([CBRA, nbra]).(bracket := open + [nbra], nbra := nbra + 1);
    OpenStep(src, sp, eof, room, st, pieces, prev, open, nbra, dollar, st2);
    CompilesPieces(src, sp + 2, eof, room, st2, pieces[1..], Paren, open + [nbra], nbra + 1, dollar);
  }

  lemma OpenStep(src: seq<byte>, sp: nat, eof: byte, room: nat, st: CompState, pieces: seq<Piece>,
                 prev: Prev, open: seq<byte>, nbra: nat, dollar: bool, st2: CompState)
    requires Reading(src, sp, eof, st, pieces, prev, open, nbra, dollar) && pieces != [] && pieces[0].Open?
    requires |st.code| < room
    requires nbra < NBRA
    requires st2 == st.Emit([CBRA, nbra]).(bracket := open + [nbra], nbra := nbra + 1)
    ensures Reading(src, sp + 2, eof, st2, pieces[1..], Paren, open + [nbra], nbra + 1, dollar)
    ensures CompileFrom(src, sp, eof, room, st) == CompileFrom(src, sp + 2, eof, room, st2)
    ensures Expected(st, pieces, prev, open, nbra, eof, dollar, room, sp)
            == Expected(st2, pieces[1..], Paren, open + [nbra], nbra + 1, eof, dollar, room, sp + 2)
  {
    hide *;
    OpenReading(src, sp, eof, room, st, pieces, prev, open, nbra, dollar, st2);
    OpenCompiles(src, sp, eof, room, st, pieces, prev, open, nbra, dollar, st2);
    ReadingFirst(src, sp, eof, st, pieces, prev, open, nbra, dollar);
    Emitted(st, st2, [CBRA, nbra]);
    ExpectedOpen(st, pieces, prev, open, nbra, eof, dollar, room, sp, st2);
  }

  lemma OpenReading(src: seq<byte>, sp: nat, eof: byte, room: nat, st: CompState, pieces: seq<Piece>,
                    prev: Prev, open: seq<byte>, nbra: nat, dollar: bool, st2: CompState)
    requires Reading(src, sp, eof, st, pieces, prev, open, nbra, dollar) && pieces != [] && pieces[0].Open?
    requires |st.code| < room
    requires nbra < NBRA
    requires st2 == st.Emit([CBRA, nbra]).(bracket := open + [nbra], nbra := nbra + 1)
    ensures Reading(src, sp + 2, eof, st2, pieces[1..], Paren, open + [nbra], nbra + 1, dollar)
  {
    hide ShowPieces, ShowPiece, ShowEnd;
    MarkText(src, sp, eof, pieces, dollar);
    assert st2.code[|st.code|] == CBRA;
  }

  lemma OpenCompiles(src: seq<byte>, sp: nat, eof: byte, room: nat, st: CompState, pieces: seq<Piece>,
                     prev: Prev, open: seq<byte>, nbra: nat, dollar: bool, st2: CompState)
    requires Reading(src, sp, eof, st, pieces, prev, open, nbra, dollar) && pieces != [] && pieces[0].Open?
    requires |st.code| < room
    requires nbra < NBRA
    requires st2 == st.Emit([CBRA, nbra]).(bracket := open + [nbra], nbra := nbra + 1)
    ensures NulFree(src) && sp + 2 <= |src| && st.Valid() && st2.Valid()
    ensures CompileFrom(src, sp, eof, room, st) == CompileFrom(src, sp + 2, eof, room, st2)
  {
    hide CompileFrom, ShowPieces, ShowEnd;
    SplitFirst(src, sp, eof, pieces, dollar);
    TwoBytes(src, sp, ShowPiece(pieces[0]));
    EscapeStep(src, sp, eof, room, st);
  }

  lemma {:induction false} CompilesClose(src: seq<byte>, sp: nat, eof: byte, room: nat, st: CompState,
                                         pieces: seq<Piece>,
                                         prev: Prev, open: seq<byte>, nbra: nat, dollar: bool)
    requires Reading(src, sp, eof, st, pieces, prev, open, nbra, dollar) && pieces != [] && pieces[0].Close?
    requires |st.code| < room
    ensures CompileFrom(src, sp, eof, room, st) == Expected(st, pieces, prev, open, nbra, eof, dollar, room, sp)
    decreases |pieces|, 0
  {
    hide *;
    ReadingFirst(src, sp, eof, st, pieces, prev, open, nbra, dollar);
    var st2 := st.Emit([CKET, open[|open| - 1]]).(bracket := open[..|open| - 1], closed := st.closed + 1);
    CloseStep(src, sp, eof, room, st, pieces, prev, open, nbra, dollar, st2);
    CompilesPieces(src, sp + 2, eof, room, st2, pieces[1..], Paren, open[..|open| - 1], nbra, dollar);
  }

  lemma CloseStep(src: seq<byte>, sp: nat, eof: byte, room: nat, st: CompState, pieces: seq<Piece>,
                  prev: Prev, open: seq<byte>, nbra: nat, dollar: bool, st2: CompState)
    requires Reading(src, sp, eof, st, pieces, prev, open, nbra, dollar) && pieces != [] && pieces[0].Close?
    requires |st.code| < room
    requires open != []
    requires st2 == st.Emit([CKET, open[|open| - 1]]).(bracket := open[..|open| - 1], closed := st.closed + 1)
    ensures Reading(src, sp + 2, eof, st2, pieces[1..], Paren, open[..|open| - 1], nbra, dollar)
    ensures CompileFrom(src, sp, eof, room, st) == CompileFrom(src, sp + 2, eof, room, st2)
    ensures Expected(st, pieces, prev, open, nbra, eof, dollar, room, sp)
            == Expected(st2, pieces[1..], Paren, open[..|open| - 1], nbra, eof, dollar, room, sp + 2)
  {
    hide *;
    CloseReading(src, sp, eof, room, st, pieces, prev, open, nbra, dollar, st2);
    CloseCompiles(src, sp, eof, room, st, pieces, prev, open, nbra, dollar, st2);
    ReadingFirst(src, sp, eof, st, pieces, prev, open, nbra, dollar);
    Emitted(st, st2, [CKET, open[|open| - 1]]);
    ExpectedClose(st, pieces, prev, open, nbra, eof, dollar, room, sp, st2);
  }

  lemma CloseReading(src: seq<byte>, sp: nat, eof: byte, room: nat, st: CompState, pieces: seq<Piece>,
                     prev: Prev, open: seq<byte>, nbra: nat, dollar: bool, st2: CompState)
    requires Reading(src, sp, eof, st, pieces, prev, open, nbra, dollar) && pieces != [] && pieces[0].Close?
    requires |st.code| < room
    requires open != []
    requires st2 == st.Emit([CKET, open[|open| - 1]]).(bracket := open[..|open| - 1], closed := st.closed + 1)
    ensures Reading(src, sp + 2, eof, st2, pieces[1..], Paren, open[..|open| - 1], nbra, dollar)
  {
    hide ShowPieces, ShowPiece, ShowEnd;
    MarkText(src, sp, eof, pieces, dollar);
    assert st2.code[|st.code|] == CKET;
  }

  lemma CloseCompiles(src: seq<byte>, sp: nat, eof: byte, room: nat, st: CompState, pieces: seq<Piece>,
                      prev: Prev, open: seq<byte>, nbra: nat, dollar: bool, st2: CompState)
    requires Reading(src, sp, eof, st, pieces, prev, open, nbra, dollar) && pieces != [] && pieces[0].Close?
    requires |st.code| < room
    requires open != []
    requires st2 == st.Emit([CKET, open[|open| - 1]]).(bracket := open[..|open| - 1], closed := st.closed + 1)
    ensures NulFree(src) && sp + 2 <= |src| && st.Valid() && st2.Valid()
    ensures CompileFrom(src, sp, eof, room, st) == CompileFrom(src, sp + 2, eof, room, st2)
  {
    hide CompileFrom, ShowPieces, ShowEnd;
    SplitFirst(src, sp, eof, pieces, dollar);
    TwoBytes(src, sp, ShowPiece(pieces[0]));
    EscapeStep(src, sp, eof, room, st);
  }

  /**
   * The text of a valid pattern, wherever it stands and whatever follows its delimiter, compiles to the
   * encoding of the pattern's program exactly when that fits into the room there is; otherwise the
   * compiler reports too much command text. The scan stops behind the delimiter.
   */
  lemma CompilesPattern(r: Regex, eof: byte, room: nat, before: seq<byte>, after: seq<byte>)
    requires Valid(r, eof) && NulFree(before + Show(r, eof) + after)
    ensures var src, code := before + Show(r, eof) + after, Encode(Code(r, eof));
            && Compile(src, |before|, eof, room)
               == (if |code| <= room then Done(code, |before| + |Show(r, eof)|, Groups(Code(r, eof))) else Failed(50))
            && StartsAnchored(src, |before|) == r.anchored
  {
    var src, sp := before + Show(r, eof) + after, |before|;
    assert src[sp..] == Show(r, eof) + after;
    CompilesAt(src, sp, r, eof, room);
  }

  lemma CompilesAt(src: seq<byte>, sp: nat, r: Regex, eof: byte, room: nat)
    requires Valid(r, eof) && NulFree(src) && sp < |src| && Show(r, eof) <= src[sp..]
    ensures Compile(src, sp, eof, room)
            == (var code := Encode(Code(r, eof));
                if |code| <= room then Done(code, sp + |Show(r, eof)|, Groups(Code(r, eof))) else Failed(50))
    ensures StartsAnchored(src, sp) == r.anchored
  {
    var i := if r.anchored then sp + 1 else sp;
    FirstCharacter(src, sp, r, eof);
    assert Reading(src, i, eof, START_STATE, r.pieces, Nothing, [], 0, r.dollar) by {
      PrefixSplits(if r.anchored then [CARET] else [], ShowPieces(r.pieces) + ShowEnd(r.dollar, eof), src, sp);
    }
    CompilesPieces(src, i, eof, room, START_STATE, r.pieces, Nothing, [], 0, r.dollar);
    ExpectedAtStart(r, eof, room, i);
  }

  lemma ExpectedAtStart(r: Regex, eof: byte, room: nat, i: nat)
    requires Valid(r, eof)
    ensures Expected(START_STATE, r.pieces, Nothing, [], 0, eof, r.dollar, room, i)
            == (var code, text := Encode(Code(r, eof)), ShowPieces(r.pieces) + ShowEnd(r.dollar, eof);
                if |code| <= room then Done(code, i + |text|, Groups(Code(r, eof))) else Failed(50))
  {
    assert [] + Encode(Code(r, eof)) == Encode(Code(r, eof));
  }

  lemma FirstCharacter(src: seq<byte>, sp: nat, r: Regex, eof: byte)
    requires Valid(r, eof) && sp < |src| && Show(r, eof) <= src[sp..]
    ensures src[sp] != eof && src[sp] != NEWLINE && (src[sp] == CARET <==> r.anchored)
  {
    assert src[sp] == src[sp..][0] == Show(r, eof)[0];
    var tail := ShowPieces(r.pieces) + ShowEnd(r.dollar, eof);
    if !r.anchored {
      assert Show(r, eof)[0] == tail[0];
      NextByte(r.pieces, Nothing, [], 0, eof, r.dollar);
      if r.pieces != [] {
        assert tail[0] == ShowPiece(r.pieces[0])[0];
      }
    }
  }
}
