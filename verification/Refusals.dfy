/** Which patterns `sed_compile` refuses, and with what error, in terms of the pattern as written. */
module Refusals {
  import opened Options
  import opened Bytes
  import opened Program
  import opened RegexSpec
  import opened Pattern
  import opened Translation
  import opened Matcher

  // ----- what may be written -----

  /** What goes wrong behind `\{`, or behind the comma there: with the digits and the character that shows it. */
  datatype Flaw =
    | NoDigit(c: byte)
    | Stray(n: seq<byte>, c: byte)
    | Large(n: seq<byte>, stop: byte)
    | NoBrace(n: seq<byte>, c: byte)
    | Third(n: seq<byte>)
    | Backwards(n: seq<byte>)

  /** What follows the pieces: the delimiter, or the end of the line, or something that has no proper end. */
  datatype Ending =
    | Delimiter(dollar: bool)
    | LineEnd(escaped: bool)
    | UnclosedClass(neg: bool, first: byte, rest: seq<ClassItem>)
    | BadInterval(lo: Option<seq<byte>>, flaw: Flaw)
    | BadAtLeast(n: seq<byte>, c: byte)

  function FlawText(f: Flaw): seq<byte> {
    match f
    case NoDigit(c) => [c]
    case Stray(n, c) => n + [c]
    case Large(n, stop) => n + [stop]
    case NoBrace(n, c) => n + [BACKSLASH, c]
    case Third(n) => n + [COMMA]
    case Backwards(n) => n + [BACKSLASH, RBRACE]
  }

  function EndingText(e: Ending, eof: byte): seq<byte> {
    match e
    case Delimiter(dollar) => ShowEnd(dollar, eof)
    case LineEnd(escaped) => if escaped then [BACKSLASH, NEWLINE] else [NEWLINE]
    case UnclosedClass(neg, first, rest) =>
      [LBRACKET] + (if neg then [CARET] else []) + ([first] + (ShowItems(rest) + [NEWLINE]))
    case BadInterval(lo, flaw) =>
      [BACKSLASH, LBRACE] + (if lo.Some? then lo.value + [COMMA] + FlawText(flaw) else FlawText(flaw))
    case BadAtLeast(n, c) => [BACKSLASH, LBRACE] + (n + [COMMA] + [BACKSLASH, c])
  }

  predicate Stop(c: byte) {
    c == BACKSLASH || c == COMMA
  }

  /** lo is the number in front of the comma, if there is one. */
  predicate ShapedFlaw(f: Flaw, lo: Option<seq<byte>>) {
    && (lo.Some? ==> ValidNumber(lo.value))
    && match f
       case NoDigit(c) => !IsDigit(c) && (lo.Some? ==> c != BACKSLASH)
       case Stray(n, c) => Digits(n) && !IsDigit(c) && !Stop(c)
       case Large(n, stop) => Digits(n) && Value(n) >= 255 && Stop(stop)
       case NoBrace(n, c) => ValidNumber(n) && c != RBRACE
       case Third(n) => lo.Some? && ValidNumber(n)
       case Backwards(n) => lo.Some? && ValidNumber(n) && Value(n) < Value(lo.value)
  }

  predicate ShapedEnding(e: Ending, prev: Prev, eof: byte) {
    match e
    case Delimiter(dollar) => dollar ==> eof != DOLLAR
    case LineEnd(escaped) => if escaped then eof != BACKSLASH else eof != NEWLINE
    case UnclosedClass(neg, first, rest) => eof != LBRACKET && (!neg ==> first != CARET) && ValidItems(rest)
    case BadInterval(lo, flaw) => eof != BACKSLASH && !prev.Nothing? && ShapedFlaw(flaw, lo)
    case BadAtLeast(n, c) => eof != BACKSLASH && !prev.Nothing? && ValidNumber(n) && c != RBRACE
  }

  /** Does a `$` in front of the ending stand for the end of the line? */
  predicate Ends(e: Ending) {
    (e.Delimiter? && !e.dollar) || (e.LineEnd? && !e.escaped)
  }

  function Left(p: Piece): Prev {
    if p.Open? || p.Close? then Paren else Atomic
  }

  predicate ShapedPiece(p: Piece, prev: Prev, eof: byte, last: bool) {
    match p
    case Sym(symbol, times) => ValidSymbol(symbol, prev, eof, times.One? && last) && ValidTimes(times, eof)
    case Ref(group) => eof != BACKSLASH && 1 <= group <= 9
    case _ => eof != BACKSLASH
  }

  /** Pieces and ending can be told apart in their text. Groups and references may be wrong. */
  predicate Shaped(pieces: seq<Piece>, prev: Prev, e: Ending, eof: byte) {
    if pieces == [] then ShapedEnding(e, prev, eof)
    else
      && ShapedPiece(pieces[0], prev, eof, pieces[1..] == [] && Ends(e))
      && Shaped(pieces[1..], Left(pieces[0]), e, eof)
  }

  // ----- what is wrong with it -----

  function Opened(pieces: seq<Piece>): nat {
    if pieces == [] then 0
    else Opened(pieces[..|pieces| - 1]) + if pieces[|pieces| - 1].Open? then 1 else 0
  }

  function Closed(pieces: seq<Piece>): nat {
    if pieces == [] then 0
    else Closed(pieces[..|pieces| - 1]) + if pieces[|pieces| - 1].Close? then 1 else 0
  }

  /** The error piece k deserves, when nothing is wrong with those before it. */
  function Fault(pieces: seq<Piece>, k: nat): Option<nat>
    requires k < |pieces|
  {
    var nbra, closed := Opened(pieces[..k]), Closed(pieces[..k]);
    match pieces[k]
    case Open => if nbra >= 9 then Some(43) else None
    case Close => if closed >= nbra then Some(42) else None
    case Ref(group) => if group > closed then Some(25) else None
    case Sym(_, _) => None
  }

  function FlawError(f: Flaw): nat {
    match f
    case NoDigit(_) => 16
    case Stray(_, _) => 16
    case Large(_, _) => 11
    case NoBrace(_, _) => 45
    case Third(_) => 44
    case Backwards(_) => 46
  }

  function EndFault(pieces: seq<Piece>, e: Ending): Option<nat> {
    match e
    case Delimiter(_) => if Opened(pieces) > Closed(pieces) then Some(42) else None
    case LineEnd(_) => Some(36)
    case UnclosedClass(_, _, _) => Some(49)
    case BadInterval(_, flaw) => Some(FlawError(flaw))
    case BadAtLeast(_, _) => Some(45)
  }

  /** The first thing wrong is piece k, or the ending behind them all. */
  ghost predicate FirstFault(pieces: seq<Piece>, e: Ending, k: nat, err: nat) {
    && k <= |pieces| && (forall j :: 0 <= j < k ==> Fault(pieces, j).None?)
    && (if k < |pieces| then Fault(pieces, k) else EndFault(pieces, e)) == Some(err)
  }

  // ----- one piece -----

  /** The state of the compiler behind a piece. */
  function After(st: CompState, p: Piece): CompState
    requires p.Sym? ==> ValidTimes(p.times, 0)
    requires p.Close? ==> st.bracket != []
    requires p.Ref? ==> 1 <= p.group <= 9
    requires p.Open? ==> st.nbra < 9
  {
    match p
    case Sym(s, t) => st.Emit(EncodeInstr(Item(AtomOf(s), QuantOf(t))))
    case Open => st.Emit([CBRA, st.nbra]).(bracket := st.bracket + [st.nbra], nbra := st.nbra + 1)
    case Close =>
      var top := |st.bracket| - 1;
      st.Emit([CKET, st.bracket[top]]).(bracket := st.bracket[..top], closed := st.closed + 1)
    case Ref(group) => st.Emit([CBACK, group - 1])
  }

  /** No instruction is longer than a wide class with bounds. */
  const LONGEST: nat := 35

  lemma AfterFacts(st: CompState, p: Piece)
    requires p.Sym? ==> ValidTimes(p.times, 0)
    requires p.Close? ==> st.bracket != []
    requires p.Ref? ==> 1 <= p.group <= 9
    requires p.Open? ==> st.nbra < 9
    requires st.Valid()
    ensures var st2 := After(st, p);
            && st2.Valid() && Follows(st2, Left(p)) && |st2.code| <= |st.code| + LONGEST
            && st2.nbra == st.nbra + (if p.Open? then 1 else 0) && st2.closed == st.closed + (if p.Close? then 1 else 0)
  {
    if p.Sym? {
      hide EncodeInstr, AtomOf, QuantOf, Follows;
      ItemFollows(st, AtomOf(p.symbol), QuantOf(p.times));
      ItemLength(p.symbol, QuantOf(p.times));
    } else {
      assert After(st, p).code[|st.code|] == if p.Open? then CBRA else if p.Close? then CKET else CBACK;
    }
  }

  lemma ItemLength(s: Symbol, q: Quant)
    ensures 0 < |EncodeInstr(Item(AtomOf(s), q))| <= LONGEST
  {
    AtomCodeSize(s);
    AtomCodeParts(s, q);
  }

  /** The text of a piece that nothing is wrong with. */
  ghost predicate Ahead(src: seq<byte>, sp: nat, eof: byte, room: nat, st: CompState, p: Piece, prev: Prev,
                        last: bool) {
    && NulFree(src) && sp <= |src| && ShowPiece(p) <= src[sp..] && st.Valid() && |st.code| < room && Follows(st, prev)
    && ShapedPiece(p, prev, eof, last)
    && (p.Sym? && p.symbol == Plain(DOLLAR) ==> At(src, sp + 1) != eof && At(src, sp + 1) != NEWLINE)
  }

  lemma StepsOver(src: seq<byte>, sp: nat, eof: byte, room: nat, st: CompState, p: Piece, prev: Prev, last: bool)
    requires Ahead(src, sp, eof, room, st, p, prev, last)
    requires p.Close? ==> st.bracket != []
    requires p.Open? ==> st.nbra < 9
    requires p.Ref? ==> p.group <= st.closed
    ensures sp + |ShowPiece(p)| <= |src| && (p.Sym? ==> ValidTimes(p.times, 0)) && After(st, p).Valid()
    ensures CompileFrom(src, sp, eof, room, st) == CompileFrom(src, sp + |ShowPiece(p)|, eof, room, After(st, p))
  {
    AfterFacts(st, p);
    if p.Sym? {
      SymbolStep(src, sp, eof, room, st, p, prev, last);
    } else {
      TwoBytes(src, sp, ShowPiece(p));
      EscapeStep(src, sp, eof, room, st);
    }
  }

  lemma SymbolStep(src: seq<byte>, sp: nat, eof: byte, room: nat, st: CompState, p: Piece, prev: Prev, last: bool)
    requires Ahead(src, sp, eof, room, st, p, prev, last) && p.Sym?
    ensures sp + |ShowPiece(p)| <= |src| && ValidTimes(p.times, 0) && After(st, p).Valid()
    ensures CompileFrom(src, sp, eof, room, st) == CompileFrom(src, sp + |ShowPiece(p)|, eof, room, After(st, p))
  {
    hide CompileFrom, ShowSymbol, ShowTimes, EncodeInstr, AtomOf, QuantOf, Follows;
    var s, t := p.symbol, p.times;
    SplitSymbol(src, sp, s, t);
    var i := sp + |ShowSymbol(s)|;
    var st1 := st.Emit(AtomCode(s));
    AfterFacts(st, p);
    AtomCodeNotEmpty(s);
    SymPiece(src, sp, i, i + |ShowTimes(t)|, eof, room, st, st1, After(st, p), s, t, prev, t.One? && last);
  }

  lemma AtomCodeNotEmpty(s: Symbol)
    ensures AtomCode(s) != []
  {
    AtomCodeSize(s);
  }

  /** A piece that something is wrong with. */
  lemma StopsAt(src: seq<byte>, sp: nat, eof: byte, room: nat, st: CompState, p: Piece, prev: Prev, last: bool)
    requires Ahead(src, sp, eof, room, st, p, prev, last) && !p.Sym?
    ensures p.Open? && st.nbra >= 9 ==> CompileFrom(src, sp, eof, room, st) == Failed(43)
    ensures p.Close? && st.bracket == [] ==> CompileFrom(src, sp, eof, room, st) == Failed(42)
    ensures p.Ref? && p.group > st.closed ==> CompileFrom(src, sp, eof, room, st) == Failed(25)
  {
    TwoBytes(src, sp, ShowPiece(p));
    assert CompileFrom(src, sp, eof, room, st) == CompileEscape(src, sp, eof, room, st);
  }

  // ----- the ending -----

  /** Too much command text is reported instead only if there is little room. */
  predicate FailsWith(r: Compiled, err: nat, tight: bool) {
    r == Failed(err) || (tight && r == Failed(50))
  }

  /** The members of a class, and a newline where there should be a bracket. */
  lemma {:induction false} ScansUnclosed(src: seq<byte>, i: nat, lc: byte, rest: seq<ClassItem>, placed: set<byte>,
                                         wide: bool, canWiden: bool)
    requires NulFree(src) && i <= |src| && ShowItems(rest) + [NEWLINE] <= src[i..] && lc != 0 && ValidItems(rest)
    ensures var scan := ScanClass(src, i, lc, placed, wide, canWiden);
            scan == ClassError(49) || (!canWiden && scan == ClassError(50))
    decreases |rest|
  {
    if rest == [] {
      assert ShowItems(rest) + [NEWLINE] == [NEWLINE];
      PrefixSplits([NEWLINE], [], src, i);
      assert src[i + 0] == NEWLINE;
    } else {
      hide ScanClass;
      var x, later := rest[0], ShowItems(rest[1..]) + [NEWLINE];
      ConcatAssociates(MemberText(x), ShowItems(rest[1..]), [NEWLINE]);
      PrefixSplits(MemberText(x), later, src, i);
      var j := i + |MemberText(x)|;
      PrefixSplits(later, [], src, j);
      assert src[i + 0] == MemberText(x)[0] && src[j + 0] == later[0];
      ScansMember(src, i, lc, x, placed, wide, canWiden);
      ScansUnclosed(src, j, x.c, rest[1..], placed + if x.Single? then {x.c} else RangeSet(lc, x.c),
                    wide || x.c >= 128, canWiden);
    }
  }

  lemma UnclosedFails(src: seq<byte>, i: nat, first: byte, rest: seq<ClassItem>, canWiden: bool)
    requires NulFree(src) && i <= |src| && [first] + (ShowItems(rest) + [NEWLINE]) <= src[i..] && ValidItems(rest)
    ensures var scan := ScanClass(src, i, 0, {}, false, canWiden);
            scan == ClassError(49) || (!canWiden && scan == ClassError(50))
  {
    var later := ShowItems(rest) + [NEWLINE];
    PrefixSplits([first], later, src, i);
    PrefixSplits(later, [], src, i + 1);
    assert src[i + 0] == first && src[i + 1 + 0] == later[0];
    if first != NEWLINE {
      ScansUnclosed(src, i + 1, first, rest, {first}, first >= 128, canWiden);
      assert {} + {first} == {first};
    }
  }

  lemma ClassFails(src: seq<byte>, sp: nat, eof: byte, room: nat, st: CompState, e: Ending)
    requires NulFree(src) && sp <= |src| && st.Valid() && |st.code| < room
    requires e.UnclosedClass? && ShapedEnding(e, Nothing, eof) && EndingText(e, eof) <= src[sp..]
    ensures FailsWith(CompileFrom(src, sp, eof, room, st), 49, |st.code| + 33 >= room)
  {
    hide CompileFrom, ScanClass;
    var i := if e.neg then sp + 2 else sp + 1;
    ClassText(src, sp, e, eof);
    UnclosedFails(src, i, e.first, e.rest, |st.code| + 33 < room);
    BracketFails(src, sp, eof, room, st, e.neg);
  }

  lemma ClassText(src: seq<byte>, sp: nat, e: Ending, eof: byte)
    requires NulFree(src) && sp <= |src|
    requires e.UnclosedClass? && ShapedEnding(e, Nothing, eof) && EndingText(e, eof) <= src[sp..]
    ensures var i := if e.neg then sp + 2 else sp + 1;
            i < |src| && src[sp] == LBRACKET && (At(src, sp + 1) == CARET <==> e.neg)
            && [e.first] + (ShowItems(e.rest) + [NEWLINE]) <= src[i..]
  {
    var head, later := [LBRACKET] + (if e.neg then [CARET] else []), [e.first] + (ShowItems(e.rest) + [NEWLINE]);
    PrefixSplits(head, later, src, sp);
    PrefixSplits([e.first], ShowItems(e.rest) + [NEWLINE], src, sp + |head|);
    assert src[sp + 0] == LBRACKET && (e.neg ==> src[sp + 1] == CARET) && src[sp + |head| + 0] == e.first;
  }

  lemma BracketFails(src: seq<byte>, sp: nat, eof: byte, room: nat, st: CompState, neg: bool)
    requires NulFree(src) && sp + 1 < |src| && st.Valid() && |st.code| < room && eof != LBRACKET
    requires src[sp] == LBRACKET && (At(src, sp + 1) == CARET <==> neg)
    requires var scan := ScanClass(src, if neg then sp + 2 else sp + 1, 0, {}, false, |st.code| + 33 < room);
             scan == ClassError(49) || (|st.code| + 33 >= room && scan == ClassError(50))
    ensures FailsWith(CompileFrom(src, sp, eof, room, st), 49, |st.code| + 33 >= room)
  {
    hide ScanClass;
    assert CompileFrom(src, sp, eof, room, st) == CompileBracket(src, sp, eof, room, st);
  }

  lemma LineEndFails(src: seq<byte>, sp: nat, eof: byte, room: nat, st: CompState, e: Ending)
    requires NulFree(src) && sp <= |src| && st.Valid() && |st.code| < room
    requires e.LineEnd? && ShapedEnding(e, Nothing, eof) && EndingText(e, eof) <= src[sp..]
    ensures CompileFrom(src, sp, eof, room, st) == Failed(36)
  {
    PrefixSplits(EndingText(e, eof), [], src, sp);
    assert src[sp + 0] == EndingText(e, eof)[0];
    if e.escaped {
      assert src[sp + 1] == NEWLINE;
      assert CompileFrom(src, sp, eof, room, st) == CompileEscape(src, sp, eof, room, st);
    }
  }

  lemma OpenGroupsFail(src: seq<byte>, sp: nat, eof: byte, room: nat, st: CompState, e: Ending)
    requires NulFree(src) && sp <= |src| && st.Valid() && |st.code| < room && st.bracket != [] && eof != 0
    requires e.Delimiter? && ShapedEnding(e, Nothing, eof) && EndingText(e, eof) <= src[sp..]
    ensures FailsWith(CompileFrom(src, sp, eof, room, st), 42, |st.code| + 1 >= room)
  {
    PrefixSplits(EndingText(e, eof), [], src, sp);
    assert src[sp + 0] == EndingText(e, eof)[0];
    if e.dollar {
      assert src[sp + 1] == eof;
      assert CompileFrom(src, sp, eof, room, st) == CompileFrom(src, sp + 1, eof, room, st.Emit([CDOL]));
    }
  }

  // ----- intervals -----

  /** Digits and a character that neither is one nor ends the number. */
  lemma {:induction false} ScansStray(src: seq<byte>, i: nat, n: seq<byte>, c: byte, acc: nat)
    requires NulFree(src) && i <= |src| && n + [c] <= src[i..] && (forall k :: 0 <= k < |n| ==> IsDigit(n[k]))
    requires !IsDigit(c) && (n != [] ==> !Stop(c))
    ensures ScanNumber(src, i, acc) == NumError
    decreases |n|
  {
    PrefixSplits(n + [c], [], src, i);
    assert src[i + 0] == (n + [c])[0];
    if n != [] {
      assert src[i + 1] == (n + [c])[1];
      assert n + [c] == [n[0]] + (n[1..] + [c]);
      PrefixSplits([n[0]], n[1..] + [c], src, i);
      ScansStray(src, i + 1, n[1..], c, 10 * acc + (n[0] - ZERO));
    }
  }

  /** What scanning the number of a flaw results in. */
  lemma ScansFlaw(src: seq<byte>, i: nat, f: Flaw, lo: Option<seq<byte>>)
    requires NulFree(src) && i <= |src| && FlawText(f) <= src[i..] && ShapedFlaw(f, lo)
    ensures f.NoDigit? || f.Stray? ==> ScanNumber(src, i, 0) == NumError
    ensures !f.NoDigit? && !f.Stray? ==>
              var j := i + |f.n| + 1;
              && Value(f.n) >= 0 && j <= |src|
              && ScanNumber(src, i, 0)
                 == NumEnd(Value(f.n), if f.Large? then f.stop else if f.Third? then COMMA else BACKSLASH, j)
              && (f.NoBrace? || f.Backwards? ==> j < |src| && src[j] == if f.NoBrace? then f.c else RBRACE)
    ensures i < |src| && src[i] == FlawText(f)[0]
  {
    hide ScanNumber;
    PrefixSplits(FlawText(f), [], src, i);
    assert src[i + 0] == FlawText(f)[0];
    match f
    case NoDigit(c) =>
      assert [] + [c] == [c];
      ScansStray(src, i, [], c, 0);
    case Stray(n, c) => ScansStray(src, i, n, c, 0);
    case Large(n, stop) => ScansWholeNumber(src, i, n, stop);
    case Third(n) => ScansWholeNumber(src, i, n, COMMA);
    case NoBrace(n, c) => ScansBroken(src, i, n, c);
    case Backwards(n) => ScansBroken(src, i, n, RBRACE);
  }

  lemma ScansBroken(src: seq<byte>, i: nat, n: seq<byte>, c: byte)
    requires NulFree(src) && i <= |src| && n + [BACKSLASH, c] <= src[i..] && Digits(n)
    ensures i + |n| + 1 < |src| && src[i + |n| + 1] == c
    ensures Value(n) >= 0 && ScanNumber(src, i, 0) == NumEnd(Value(n), BACKSLASH, i + |n| + 1)
  {
    hide ScanNumber;
    assert n + [BACKSLASH, c] == (n + [BACKSLASH]) + [c];
    PrefixSplits(n + [BACKSLASH], [c], src, i);
    PrefixSplits([c], [], src, i + |n| + 1);
    assert src[i + |n| + 1 + 0] == c;
    ScansWholeNumber(src, i, n, BACKSLASH);
  }

  lemma FlawFails(src: seq<byte>, i: nat, f: Flaw)
    requires NulFree(src) && i <= |src| && FlawText(f) <= src[i..] && ShapedFlaw(f, None)
    ensures ScanInterval(src, i) == IntervalError(FlawError(f))
  {
    hide ScanNumber, FlawText;
    ScansFlaw(src, i, f, None);
  }

  lemma SecondFails(src: seq<byte>, i: nat, lo: seq<byte>, f: Flaw)
    requires NulFree(src) && i <= |src| && lo + [COMMA] + FlawText(f) <= src[i..] && ShapedFlaw(f, Some(lo))
    ensures ScanInterval(src, i) == IntervalError(FlawError(f))
  {
    hide ScanNumber, ScanInterval;
    PrefixSplits(lo + [COMMA], FlawText(f), src, i);
    ScansWholeNumber(src, i, lo, COMMA);
    ScansFlaw(src, i + |lo| + 1, f, Some(lo));
    FlawNotStop(f, Some(lo));
    SecondNumber(src, i, lo, f);
  }

  lemma FlawNotStop(f: Flaw, lo: Option<seq<byte>>)
    requires ShapedFlaw(f, lo) && lo.Some?
    ensures FlawText(f)[0] != BACKSLASH
  {
    assert !f.NoDigit? ==> IsDigit(f.n[0]);
  }

  lemma SecondNumber(src: seq<byte>, i: nat, lo: seq<byte>, f: Flaw)
    requires NulFree(src) && i <= |src| && ShapedFlaw(f, Some(lo)) && i + |lo| + 1 < |src| && Value(lo) >= 0
    requires ScanNumber(src, i, 0) == NumEnd(Value(lo), COMMA, i + |lo| + 1) && src[i + |lo| + 1] != BACKSLASH
    requires f.NoDigit? || f.Stray? ==> ScanNumber(src, i + |lo| + 1, 0) == NumError
    requires !f.NoDigit? && !f.Stray? ==>
               var j := i + |lo| + 1 + |f.n| + 1;
               && Value(f.n) >= 0 && j <= |src|
               && ScanNumber(src, i + |lo| + 1, 0)
                  == NumEnd(Value(f.n), if f.Large? then f.stop else if f.Third? then COMMA else BACKSLASH, j)
               && (f.NoBrace? || f.Backwards? ==> j < |src| && src[j] == if f.NoBrace? then f.c else RBRACE)
    ensures ScanInterval(src, i) == IntervalError(FlawError(f))
  {
    hide ScanNumber;
  }

  lemma AtLeastFails(src: seq<byte>, i: nat, n: seq<byte>, c: byte)
    requires NulFree(src) && i <= |src| && n + [COMMA] + [BACKSLASH, c] <= src[i..] && ValidNumber(n) && c != RBRACE
    ensures ScanInterval(src, i) == IntervalError(45)
  {
    hide ScanNumber;
    PrefixSplits(n + [COMMA], [BACKSLASH, c], src, i);
    TwoBytes(src, i + |n| + 1, [BACKSLASH, c]);
    ScansWholeNumber(src, i, n, COMMA);
  }

  lemma IntervalFails(src: seq<byte>, sp: nat, eof: byte, room: nat, st: CompState, e: Ending, prev: Prev)
    requires NulFree(src) && sp <= |src| && st.Valid() && |st.code| < room && Follows(st, prev)
    requires (e.BadInterval? || e.BadAtLeast?) && ShapedEnding(e, prev, eof) && EndingText(e, eof) <= src[sp..]
    ensures CompileFrom(src, sp, eof, room, st) == Failed(EndFault([], e).value)
  {
    hide ScanInterval, FlawText, FlawError, ShapedFlaw;
    var later := EndingText(e, eof)[2..];
    assert EndingText(e, eof) == [BACKSLASH, LBRACE] + later;
    PrefixSplits([BACKSLASH, LBRACE], later, src, sp);
    assert src[sp + 0] == BACKSLASH && src[sp + 1] == LBRACE;
    match e {
      case BadInterval(None, f) => FlawFails(src, sp + 2, f);
      case BadInterval(Some(lo), f) => SecondFails(src, sp + 2, lo, f);
      case BadAtLeast(n, c) => AtLeastFails(src, sp + 2, n, c);
    }
    BraceFails(src, sp, eof, room, st, EndFault([], e).value);
  }

  lemma BraceFails(src: seq<byte>, sp: nat, eof: byte, room: nat, st: CompState, err: nat)
    requires NulFree(src) && sp + 2 <= |src| && st.Valid() && |st.code| < room && st.lastep.Some? && eof != BACKSLASH
    requires src[sp] == BACKSLASH && src[sp + 1] == LBRACE && ScanInterval(src, sp + 2) == IntervalError(err)
    ensures CompileFrom(src, sp, eof, room, st) == Failed(err)
  {
    hide ScanInterval;
    assert CompileFrom(src, sp, eof, room, st) == CompileEscape(src, sp, eof, room, st);
    assert CompileEscape(src, sp, eof, room, st) == CompileBrace(src, sp, eof, room, st);
  }

  // ----- whole patterns -----

  /** The compiler, with st, has the pieces from the k-th on, and the ending, ahead of it. */
  ghost predicate Expecting(src: seq<byte>, sp: nat, eof: byte, st: CompState, pieces: seq<Piece>, k: nat, prev: Prev,
                            e: Ending) {
    && NulFree(src) && sp <= |src| && eof != 0 && k <= |pieces|
    && ShowPieces(pieces[k..]) + EndingText(e, eof) <= src[sp..] && Shaped(pieces[k..], prev, e, eof)
    && st.Valid() && Follows(st, prev) && st.nbra == Opened(pieces[..k]) && st.closed == Closed(pieces[..k])
  }

  lemma CountsOnce(pieces: seq<Piece>, k: nat)
    requires k < |pieces|
    ensures Opened(pieces[..k + 1]) == Opened(pieces[..k]) + if pieces[k].Open? then 1 else 0
    ensures Closed(pieces[..k + 1]) == Closed(pieces[..k]) + if pieces[k].Close? then 1 else 0
  {
    assert pieces[..k + 1][..k] == pieces[..k];
  }

  lemma TextOnce(src: seq<byte>, sp: nat, eof: byte, pieces: seq<Piece>, k: nat, e: Ending)
    requires sp <= |src| && k < |pieces| && ShowPieces(pieces[k..]) + EndingText(e, eof) <= src[sp..]
    ensures var j := sp + |ShowPiece(pieces[k])|;
            j <= |src| && ShowPiece(pieces[k]) <= src[sp..]
            && ShowPieces(pieces[k + 1..]) + EndingText(e, eof) <= src[j..]
  {
    var p, later, end := ShowPiece(pieces[k]), ShowPieces(pieces[k + 1..]), EndingText(e, eof);
    assert pieces[k..][1..] == pieces[k + 1..];
    assert ShowPieces(pieces[k..]) == p + later;
    ConcatAssociates(p, later, end);
    PrefixSplits(p, later + end, src, sp);
  }

  /** What follows a `$` that stands for itself. */
  lemma NextOf(pieces: seq<Piece>, prev: Prev, e: Ending, eof: byte)
    requires Shaped(pieces, prev, e, eof) && !(pieces == [] && Ends(e))
    ensures var text := ShowPieces(pieces) + EndingText(e, eof); text != [] && text[0] != eof && text[0] != NEWLINE
  {
    if pieces != [] {
      assert (ShowPieces(pieces) + EndingText(e, eof))[0] == ShowPiece(pieces[0])[0];
    }
  }

  lemma BehindDollar(src: seq<byte>, sp: nat, eof: byte, pieces: seq<Piece>, k: nat, prev: Prev, e: Ending)
    requires NulFree(src) && sp <= |src| && k < |pieces| && ShowPieces(pieces[k..]) + EndingText(e, eof) <= src[sp..]
    requires Shaped(pieces[k..], prev, e, eof) && pieces[k].Sym? && pieces[k].symbol == Plain(DOLLAR)
    ensures sp < |src| && At(src, sp + 1) != eof && At(src, sp + 1) != NEWLINE
  {
    hide ShowPieces, EndingText, ShapedEnding, Shaped;
    var t, rest := pieces[k].times, pieces[k + 1..];
    TextOnce(src, sp, eof, pieces, k, e);
    ShapedOnce(pieces, k, prev, e, eof);
    if t.One? {
      NextOf(rest, Atomic, e, eof);
      FirstAt(src, sp + 1, ShowPieces(rest) + EndingText(e, eof));
    } else {
      DollarTimes(src, sp, t, eof);
    }
  }

  lemma FirstAt(src: seq<byte>, sp: nat, text: seq<byte>)
    requires sp <= |src| && text != [] && text <= src[sp..]
    ensures sp < |src| && src[sp] == text[0]
  {
    assert src[sp] == src[sp..][0];
  }

  lemma DollarTimes(src: seq<byte>, sp: nat, t: Times, eof: byte)
    requires sp <= |src| && !t.One? && ValidTimes(t, eof) && ShowPiece(Sym(Plain(DOLLAR), t)) <= src[sp..]
    ensures sp + 1 < |src| && src[sp + 1] != eof && src[sp + 1] != NEWLINE
  {
    PrefixSplits([DOLLAR], ShowTimes(t), src, sp);
    FirstAt(src, sp + 1, ShowTimes(t));
  }

  lemma PieceAhead(src: seq<byte>, sp: nat, eof: byte, room: nat, st: CompState, pieces: seq<Piece>, k: nat, prev: Prev,
                   e: Ending)
    requires Expecting(src, sp, eof, st, pieces, k, prev, e) && k < |pieces| && |st.code| < room
    ensures Ahead(src, sp, eof, room, st, pieces[k], prev, pieces[k + 1..] == [] && Ends(e))
    ensures Shaped(pieces[k + 1..], Left(pieces[k]), e, eof)
  {
    hide ShowPieces, EndingText, ShapedEnding, Follows;
    TextOnce(src, sp, eof, pieces, k, e);
    ShapedOnce(pieces, k, prev, e, eof);
    if pieces[k].Sym? && pieces[k].symbol == Plain(DOLLAR) {
      BehindDollar(src, sp, eof, pieces, k, prev, e);
    }
  }

  lemma EndingFails(src: seq<byte>, sp: nat, eof: byte, room: nat, st: CompState, pieces: seq<Piece>, prev: Prev,
                    e: Ending, err: nat)
    requires Expecting(src, sp, eof, st, pieces, |pieces|, prev, e) && |st.code| < room
    requires EndFault(pieces, e) == Some(err)
    ensures FailsWith(CompileFrom(src, sp, eof, room, st), err, |st.code| + LONGEST >= room)
  {
    hide CompileFrom, EndingText, Opened, Closed, FlawError;
    assert pieces[|pieces|..] == [] && pieces[..|pieces|] == pieces;
    assert [] + EndingText(e, eof) == EndingText(e, eof);
    match e
    case Delimiter(_) => OpenGroupsFail(src, sp, eof, room, st, e);
    case LineEnd(_) => LineEndFails(src, sp, eof, room, st, e);
    case UnclosedClass(_, _, _) => ClassFails(src, sp, eof, room, st, e);
    case _ => IntervalFails(src, sp, eof, room, st, e, prev);
  }

  /** Behind a piece that nothing is wrong with. */
  lemma ExpectingNext(src: seq<byte>, sp: nat, eof: byte, room: nat, st: CompState, pieces: seq<Piece>, k: nat,
                      prev: Prev, e: Ending)
    requires Expecting(src, sp, eof, st, pieces, k, prev, e) && k < |pieces| && |st.code| < room
    requires Fault(pieces, k).None?
    ensures var p, j := pieces[k], sp + |ShowPiece(pieces[k])|;
            && (p.Sym? ==> ValidTimes(p.times, 0)) && (p.Close? ==> st.bracket != []) && (p.Open? ==> st.nbra < 9)
            && (p.Ref? ==> 1 <= p.group <= st.closed && p.group <= 9)
            && |After(st, p).code| <= |st.code| + LONGEST
            && Expecting(src, j, eof, After(st, p), pieces, k + 1, Left(p), e)
            && CompileFrom(src, sp, eof, room, st) == CompileFrom(src, j, eof, room, After(st, p))
  {
    hide CompileFrom, Shaped, ShowPieces, EndingText, Follows, Opened, Closed, After;
    PieceAhead(src, sp, eof, room, st, pieces, k, prev, e);
    PieceFits(src, sp, eof, room, st, pieces, k, prev, e);
    StepsOver(src, sp, eof, room, st, pieces[k], prev, pieces[k + 1..] == [] && Ends(e));
    AfterFacts(st, pieces[k]);
    CountsOnce(pieces, k);
    TextOnce(src, sp, eof, pieces, k, e);
  }

  lemma PieceFits(src: seq<byte>, sp: nat, eof: byte, room: nat, st: CompState, pieces: seq<Piece>, k: nat, prev: Prev,
                  e: Ending)
    requires Expecting(src, sp, eof, st, pieces, k, prev, e) && k < |pieces| && Fault(pieces, k).None?
    requires Ahead(src, sp, eof, room, st, pieces[k], prev, pieces[k + 1..] == [] && Ends(e))
    ensures var p := pieces[k];
            && (p.Sym? ==> ValidTimes(p.times, 0)) && (p.Close? ==> st.bracket != []) && (p.Open? ==> st.nbra < 9)
            && (p.Ref? ==> 1 <= p.group <= st.closed && p.group <= 9)
  {
    hide Shaped, ShowPieces, EndingText, Follows, Opened, Closed;
  }

  lemma {:induction false} Refuses(src: seq<byte>, sp: nat, eof: byte, room: nat, st: CompState, pieces: seq<Piece>,
                                   k: nat, prev: Prev, e: Ending, t: nat, err: nat)
    requires Expecting(src, sp, eof, st, pieces, k, prev, e) && k <= t && FirstFault(pieces, e, t, err)
    ensures FailsWith(CompileFrom(src, sp, eof, room, st), err, room <= |st.code| + LONGEST * (|pieces| - k + 1))
    decreases t - k
  {
    hide Shaped, ShowPieces, ShowPiece, EndingText, Follows, EndFault, Opened, Closed, After;
    if |st.code| >= room {
      assert CompileFrom(src, sp, eof, room, st) == Failed(50);
    } else {
      hide CompileFrom;
      if k == |pieces| {
        EndingFails(src, sp, eof, room, st, pieces, prev, e, err);
      } else {
        var last := pieces[k + 1..] == [] && Ends(e);
        PieceAhead(src, sp, eof, room, st, pieces, k, prev, e);
        if k == t {
          StopsAt(src, sp, eof, room, st, pieces[k], prev, last);
        } else {
          assert Fault(pieces, k).None?;
          FaultCounts(pieces, k);
          ExpectingNext(src, sp, eof, room, st, pieces, k, prev, e);
          Refuses(src, sp + |ShowPiece(pieces[k])|, eof, room, After(st, pieces[k]), pieces, k + 1, Left(pieces[k]), e,
                  t, err);
        }
      }
    }
  }

  /** A text that starts a pattern. */
  predicate Written(anchored: bool, pieces: seq<Piece>, e: Ending, eof: byte) {
    && eof != 0 && Shaped(pieces, Nothing, e, eof) && (anchored ==> eof != CARET)
    && (!anchored && pieces == [] ==> !Ends(e))
    && (!anchored && pieces != [] && pieces[0].Sym? ==> pieces[0].symbol != Plain(CARET))
  }

  function WrittenText(anchored: bool, pieces: seq<Piece>, e: Ending, eof: byte): seq<byte> {
    (if anchored then [CARET] else []) + (ShowPieces(pieces) + EndingText(e, eof))
  }

  /**
   * A pattern is refused with the error of the first thing wrong with it, wherever it stands and whatever follows; with
   * little room it may be that for too much text instead.
   */
  lemma RefusesPattern(anchored: bool, pieces: seq<Piece>, e: Ending, k: nat, err: nat, eof: byte, room: nat,
                       before: seq<byte>, after: seq<byte>)
    requires Written(anchored, pieces, e, eof) && NulFree(before + WrittenText(anchored, pieces, e, eof) + after)
    requires FirstFault(pieces, e, k, err)
    ensures var r := Compile(before + WrittenText(anchored, pieces, e, eof) + after, |before|, eof, room);
            r == Failed(err) || (r == Failed(50) && room <= LONGEST * (|pieces| + 1))
  {
    hide Compile, Written, FirstFault, WrittenText;
    var text := WrittenText(anchored, pieces, e, eof);
    TextAt(before, text, after);
    RefusesAt(before + text + after, |before|, anchored, pieces, e, k, err, eof, room);
  }

  lemma TextAt(before: seq<byte>, text: seq<byte>, after: seq<byte>)
    ensures text <= (before + text + after)[|before|..]
  {
    assert (before + text + after)[|before|..] == text + after;
  }

  lemma RefusesAt(src: seq<byte>, sp: nat, anchored: bool, pieces: seq<Piece>, e: Ending, k: nat, err: nat, eof: byte,
                  room: nat)
    requires Written(anchored, pieces, e, eof) && NulFree(src) && sp <= |src|
    requires WrittenText(anchored, pieces, e, eof) <= src[sp..] && FirstFault(pieces, e, k, err)
    ensures FailsWith(Compile(src, sp, eof, room), err, room <= LONGEST * (|pieces| + 1))
  {
    hide CompileFrom, Shaped, ShowPieces, EndingText, FirstFault;
    var text := ShowPieces(pieces) + EndingText(e, eof);
    var i := if anchored then sp + 1 else sp;
    StartsPattern(src, sp, anchored, pieces, e, eof);
    assert pieces[0..] == pieces && pieces[..0] == [];
    Refuses(src, i, eof, room, START_STATE, pieces, 0, Nothing, e, k, err);
  }

  lemma StartsPattern(src: seq<byte>, sp: nat, anchored: bool, pieces: seq<Piece>, e: Ending, eof: byte)
    requires Written(anchored, pieces, e, eof) && NulFree(src) && sp <= |src|
    requires WrittenText(anchored, pieces, e, eof) <= src[sp..]
    ensures var i := if anchored then sp + 1 else sp;
            i <= |src| && ShowPieces(pieces) + EndingText(e, eof) <= src[i..]
    ensures At(src, sp) != eof && At(src, sp) != NEWLINE && (StartsAnchored(src, sp) <==> anchored)
  {
    var text := ShowPieces(pieces) + EndingText(e, eof);
    PrefixSplits(if anchored then [CARET] else [], text, src, sp);
    if anchored {
      assert src[sp + 0] == CARET;
    } else {
      PrefixSplits(text, [], src, sp);
      NextOf(pieces, Nothing, e, eof);
      assert src[sp + 0] == text[0];
      if pieces != [] {
        assert text[0] == ShowPiece(pieces[0])[0];
      }
    }
  }

  // ----- which patterns are accepted -----

  /** Nothing is wrong with any piece, and every group is closed. */
  ghost predicate Faultless(pieces: seq<Piece>) {
    (forall k :: 0 <= k < |pieces| ==> Fault(pieces, k).None?) && Opened(pieces) == Closed(pieces)
  }

  lemma {:induction false} ValidFrom(pieces: seq<Piece>, k: nat, prev: Prev, open: seq<byte>, eof: byte, dollar: bool)
    requires k <= |pieces| && Shaped(pieces[k..], prev, Delimiter(dollar), eof)
    requires Opened(pieces[..k]) == |open| + Closed(pieces[..k]) && Opened(pieces[..k]) <= 9
    ensures ValidPieces(pieces[k..], prev, open, Opened(pieces[..k]), eof, dollar)
            <==> (forall j :: k <= j < |pieces| ==> Fault(pieces, j).None?) && Opened(pieces) == Closed(pieces)
    decreases |pieces| - k
  {
    hide Opened, Closed, ValidPieces, Shaped, Fault;
    if k == |pieces| {
      assert pieces[..k] == pieces;
      ValidEnd(pieces[k..], prev, open, Opened(pieces), eof, dollar);
    } else {
      CountsOnce(pieces, k);
      ShapedOnce(pieces, k, prev, Delimiter(dollar), eof);
      ValidOnce(pieces, k, prev, open, eof, dollar);
      if Fault(pieces, k).None? {
        FaultCounts(pieces, k);
        ValidFrom(pieces, k + 1, Left(pieces[k]), OpenBehind(pieces[k], open, Opened(pieces[..k])), eof, dollar);
      }
    }
  }

  /** The open groups behind a piece. */
  function OpenBehind(p: Piece, open: seq<byte>, nbra: byte): seq<byte> {
    if p.Open? then open + [nbra] else if p.Close? && open != [] then open[..|open| - 1] else open
  }

  lemma FaultCounts(pieces: seq<Piece>, k: nat)
    requires k < |pieces| && Fault(pieces, k).None?
    ensures pieces[k].Open? ==> Opened(pieces[..k]) < 9
    ensures pieces[k].Close? ==> Closed(pieces[..k]) < Opened(pieces[..k])
  {
  }

  lemma ShapedOnce(pieces: seq<Piece>, k: nat, prev: Prev, e: Ending, eof: byte)
    requires k < |pieces| && Shaped(pieces[k..], prev, e, eof)
    ensures Shaped(pieces[k + 1..], Left(pieces[k]), e, eof)
    ensures ShapedPiece(pieces[k], prev, eof, pieces[k + 1..] == [] && Ends(e))
  {
    assert pieces[k..][1..] == pieces[k + 1..];
  }

  lemma ValidEnd(pieces: seq<Piece>, prev: Prev, open: seq<byte>, nbra: nat, eof: byte, dollar: bool)
    requires pieces == [] && Shaped(pieces, prev, Delimiter(dollar), eof)
    ensures ValidPieces(pieces, prev, open, nbra, eof, dollar) <==> open == []
  {
  }

  lemma ValidOnce(pieces: seq<Piece>, k: nat, prev: Prev, open: seq<byte>, eof: byte, dollar: bool)
    requires k < |pieces| && Opened(pieces[..k]) == |open| + Closed(pieces[..k]) && Opened(pieces[..k]) <= 9
    requires ShapedPiece(pieces[k], prev, eof, pieces[k + 1..] == [] && Ends(Delimiter(dollar)))
    ensures var p, nbra := pieces[k], Opened(pieces[..k]);
            ValidPieces(pieces[k..], prev, open, nbra, eof, dollar)
            <==> && Fault(pieces, k).None?
                 && ValidPieces(pieces[k + 1..], Left(p), OpenBehind(p, open, nbra),
                                nbra + if p.Open? then 1 else 0, eof, dollar)
  {
    hide Opened, Closed, ValidSymbol, ValidTimes;
    assert pieces[k..][1..] == pieces[k + 1..] && pieces[k..][0] == pieces[k];
  }

  /** A pattern as written is valid exactly when nothing is wrong with it. */
  lemma ValidIsFaultless(r: Regex, eof: byte)
    requires Written(r.anchored, r.pieces, Delimiter(r.dollar), eof)
    ensures Valid(r, eof) <==> Faultless(r.pieces)
  {
    assert r.pieces[0..] == r.pieces && r.pieces[..0] == [];
    ValidFrom(r.pieces, 0, Nothing, [], eof, r.dollar);
  }

  lemma {:induction false} CodeLength(pieces: seq<Piece>, prev: Prev, open: seq<byte>, nbra: nat, eof: byte,
                                      dollar: bool)
    requires ValidPieces(pieces, prev, open, nbra, eof, dollar)
    ensures |Encode(Instructions(pieces, prev, open, nbra, eof, dollar))| <= LONGEST * |pieces| + 2
    decreases |pieces|
  {
    hide EncodeInstr, ValidSymbol, ValidTimes;
    var prog := Instructions(pieces, prev, open, nbra, eof, dollar);
    if pieces == [] {
      EndLength(dollar);
    } else {
      var p, rest := pieces[0], pieces[1..];
      var left := if p.Open? then open + [nbra] else if p.Close? then open[..|open| - 1] else open;
      var opens := if p.Open? then nbra + 1 else nbra;
      CodeLength(rest, Left(p), left, opens, eof, dollar);
      EncodeFirst(prog[0], Instructions(rest, Left(p), left, opens, eof, dollar));
      if p.Sym? {
        ItemLength(p.symbol, prog[0].quant);
      } else {
        GroupBytes(prog[0]);
      }
    }
  }

  lemma EndLength(dollar: bool)
    ensures |Encode(if dollar then [Dol, Eof] else [Eof])| <= 2
  {
    assert [Dol, Eof][1..] == [Eof] && [Eof][1..] == [];
  }

  /** There is a first among the pieces something is wrong with, or it is the end. */
  lemma FaultyHasFirst(pieces: seq<Piece>, e: Ending) returns (k: nat, err: nat)
    requires e.Delimiter? && !Faultless(pieces)
    requires Opened(pieces) >= Closed(pieces) || exists j :: 0 <= j < |pieces| && Fault(pieces, j).Some?
    ensures FirstFault(pieces, e, k, err)
  {
    k := 0;
    while k < |pieces| && Fault(pieces, k).None?
      invariant k <= |pieces| && forall j :: 0 <= j < k ==> Fault(pieces, j).None?
    {
      k := k + 1;
    }
    err := if k < |pieces| then Fault(pieces, k).value else 42;
  }

  /** Without a fault there is no more closed than opened. */
  lemma {:induction false} ClosedAtMost(pieces: seq<Piece>, k: nat)
    requires k <= |pieces| && forall j :: 0 <= j < k ==> Fault(pieces, j).None?
    ensures Closed(pieces[..k]) <= Opened(pieces[..k])
    decreases k
  {
    if k > 0 {
      hide Opened, Closed;
      ClosedAtMost(pieces, k - 1);
      CountsOnce(pieces, k - 1);
      assert Fault(pieces, k - 1).None?;
    } else {
      assert pieces[..0] == [];
    }
  }

  /**
   * With room enough, the compiler accepts a pattern as written if and only if no tenth group is opened, none is closed
   * that was not opened, none is left open, and no reference has a number higher than that of the groups closed so far.
   */
  lemma AcceptedPatterns(r: Regex, eof: byte, room: nat, before: seq<byte>, after: seq<byte>)
    requires Written(r.anchored, r.pieces, Delimiter(r.dollar), eof) && NulFree(before + Show(r, eof) + after)
    requires room > LONGEST * (|r.pieces| + 1)
    ensures Compile(before + Show(r, eof) + after, |before|, eof, room).Done? <==> Faultless(r.pieces)
  {
    hide Compile, Show, Shaped, Fault, Opened, Closed;
    ValidIsFaultless(r, eof);
    if Faultless(r.pieces) {
      CompilesPattern(r, eof, room, before, after);
      CodeLength(r.pieces, Nothing, [], 0, eof, r.dollar);
    } else {
      if forall j :: 0 <= j < |r.pieces| ==> Fault(r.pieces, j).None? {
        ClosedAtMost(r.pieces, |r.pieces|);
        assert r.pieces[..|r.pieces|] == r.pieces;
      }
      var k, err := FaultyHasFirst(r.pieces, Delimiter(r.dollar));
      ShowIsWritten(r, eof);
      RefusesPattern(r.anchored, r.pieces, Delimiter(r.dollar), k, err, eof, room, before, after);
    }
  }

  lemma ShowIsWritten(r: Regex, eof: byte)
    ensures Show(r, eof) == WrittenText(r.anchored, r.pieces, Delimiter(r.dollar), eof)
  {
  }
}
