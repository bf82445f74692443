/** What `sed_compile` does to the text of a regular expression, as a function of the text alone. */
module RegexSpec {
  import opened Options
  import opened Bytes
  import opened Program

  // the characters sed_compile looks for
  const DOLLAR: byte := 36
  const LPAREN: byte := 40
  const RPAREN: byte := 41
  const ASTERISK: byte := 42
  const COMMA: byte := 44
  const MINUS: byte := 45
  const DOT: byte := 46
  const LBRACKET: byte := 91
  const RBRACKET: byte := 93
  const CARET: byte := 94
  const LETTER_N: byte := 110
  const LBRACE: byte := 123
  const RBRACE: byte := 125

  // ----- bracket classes -----

  datatype ClassScan = ClassEnd(placed: set<byte>, wide: bool, sp: nat) | ClassError(err: nat) | ClassOverrun

  /** The bytes lc..c; c alone when the range runs backwards. */
  function RangeSet(lc: byte, c: byte): set<byte> {
    (set b: byte | 0 <= b < 256 && Between(lc, b, c)) + {c}
  }

  predicate Between(lo: byte, b: byte, hi: byte) { lo <= b <= hi }

  /**
   * The class body from the character at i on: lc is the previous character, placed what the map holds.
   * A byte above 127 widens the map, which needs room for it.
   */
  function ScanClass(src: seq<byte>, i: nat, lc: byte, placed: set<byte>, wide: bool, canWiden: bool): (r: ClassScan)
    requires NulFree(src) && i <= |src|
    ensures r.ClassEnd? ==> i + 1 < r.sp <= |src|
    decreases |src| - i
  {
    var c := At(src, i);
    if c == 0 || c == NEWLINE then ClassError(49)
    else if c >= 128 && !wide && !canWiden then ClassError(50)
    else
      var wide1 := wide || c >= 128;
      if c == MINUS && lc != 0 then
        var d := At(src, i + 1);
        if d == RBRACKET then ClassEnd(placed + {MINUS}, wide1, i + 2)
        else if d >= 128 && !wide1 && !canWiden then ClassError(50)
        else if d == 0 then ClassOverrun
        else
          var placed2, wide2 := placed + RangeSet(lc, d), wide1 || d >= 128;
          if At(src, i + 2) == RBRACKET then ClassEnd(placed2, wide2, i + 3)
          else ScanClass(src, i + 2, d, placed2, wide2, canWiden)
      else if At(src, i + 1) == RBRACKET then ClassEnd(placed + {c}, wide1, i + 2)
      else ScanClass(src, i + 1, c, placed + {c}, wide1, canWiden)
  }

  // ----- intervals -----

  predicate IsDigit(c: byte) { ZERO <= c <= NINE }

  datatype NumScan = NumEnd(value: nat, stop: byte, sp: nat) | NumError

  /** Digits up to a backslash or a comma; at least one. */
  function ScanNumber(src: seq<byte>, i: nat, acc: nat): (r: NumScan)
    requires NulFree(src) && i <= |src|
    ensures r.NumEnd? ==> i + 2 <= r.sp <= |src| && (r.stop == BACKSLASH || r.stop == COMMA)
    decreases |src| - i
  {
    var c := At(src, i);
    if !IsDigit(c) then NumError
    else
      var value := 10 * acc + (c - ZERO);
      var d := At(src, i + 1);
      if d == BACKSLASH || d == COMMA then NumEnd(value, d, i + 2)
      else ScanNumber(src, i + 1, value)
  }

  datatype IntervalScan = Interval(lo: byte, hi: byte, sp: nat) | IntervalError(err: nat)

  /** The text after `\{`, up to and including `\}`. */
  function ScanInterval(src: seq<byte>, i: nat): (r: IntervalScan)
    requires NulFree(src) && i <= |src|
    ensures r.Interval? ==> i < r.sp <= |src|
  {
    match ScanNumber(src, i, 0)
    case NumError => IntervalError(16)
    case NumEnd(lo, stop, j) =>
      if lo >= 255 then IntervalError(11)
      else if stop == BACKSLASH then
        if At(src, j) != RBRACE then IntervalError(45) else Interval(lo, lo, j + 1)
      else if At(src, j) == BACKSLASH then
        if At(src, j + 1) != RBRACE then IntervalError(45) else Interval(lo, OPEN_ENDED, j + 2)
      else
        match ScanNumber(src, j, 0)
        case NumError => IntervalError(16)
        case NumEnd(hi, stop2, k) =>
          if hi >= 255 then IntervalError(11)
          else if stop2 == COMMA then IntervalError(44)
          else if At(src, k) != RBRACE then IntervalError(45)
          else if hi < lo then IntervalError(46)
          else Interval(lo, hi, k + 1)
  }

  // ----- the main loop -----

  /** lastep is where the code of the latest atom starts; bracket the indices of the open groups. */
  datatype CompState = CompState(code: seq<byte>, lastep: Option<nat>, bracket: seq<byte>, nbra: nat, closed: nat) {
    predicate Valid() {
      && (lastep.Some? ==> lastep.value < |code|)
      && nbra <= NBRA && |bracket| + closed == nbra
    }

    function Emit(bytes: seq<byte>): CompState {
      this.(lastep := Some(|code|), code := code + bytes)
    }
  }

  /**
   * Done: the code, where the scan stopped, and how many groups there are. Failed: the number
   * `regerr` is called with. Overrun: the text ends before the delimiter and the compiler reads past its end.
   */
  datatype Compiled =
    | Done(code: seq<byte>, sp: nat, nbra: nat)
    | NoPattern(sp: nat)
    | Failed(err: nat)
    | Overrun

  function OrStar(b: byte): byte { b + 1 - b % 2 }

  function OrRange(b: byte): byte { b + 3 - b % 4 }

  /** room is the number of bytes up to endbuf. */
  function CompileFrom(src: seq<byte>, sp: nat, eof: int, room: nat, st: CompState): Compiled
    requires NulFree(src) && sp <= |src| && st.Valid()
    decreases |src| - sp
  {
    var c := At(src, sp);
    if |st.code| >= room then Failed(50)
    else if c == eof then if st.bracket != [] then Failed(42) else Done(st.code + [CCEOF], sp + 1, st.nbra)
    else if c == 0 then Overrun
    else if c == DOT then CompileFrom(src, sp + 1, eof, room, st.Emit([CDOT]))
    else if c == NEWLINE then Failed(36)
    else if c == ASTERISK then
      if st.lastep.None? || st.code[st.lastep.value] == CBRA || st.code[st.lastep.value] == CKET then
        CompileFrom(src, sp + 1, eof, room, st.Emit([CCHR, c]))
      else
        var k := st.lastep.value;
        CompileFrom(src, sp + 1, eof, room, st.(code := st.code[k := OrStar(st.code[k])]))
    else if c == DOLLAR then
      var bytes := if At(src, sp + 1) != eof && At(src, sp + 1) != NEWLINE then [CCHR, c] else [CDOL];
      CompileFrom(src, sp + 1, eof, room, st.Emit(bytes))
    else if c == LBRACKET then CompileBracket(src, sp, eof, room, st)
    else if c == BACKSLASH then CompileEscape(src, sp, eof, room, st)
    else CompileFrom(src, sp + 1, eof, room, st.Emit([CCHR, c]))
  }

  /** A class whose bracket is at sp. */
  function CompileBracket(src: seq<byte>, sp: nat, eof: int, room: nat, st: CompState): Compiled
    requires NulFree(src) && sp < |src| && st.Valid()
    decreases |src| - sp, 0
  {
    if |st.code| + 17 >= room then Failed(50)
    else
      var neg := At(src, sp + 1) == CARET;
      match ScanClass(src, if neg then sp + 2 else sp + 1, 0, {}, false, |st.code| + 33 < room)
      case ClassError(err) => Failed(err)
      case ClassOverrun => Overrun
      case ClassEnd(placed, wide, j) =>
        CompileFrom(src, j, eof, room, st.Emit(EncodeInstr(Item(Cls(placed, wide, neg), Once))))
  }

  /** The character after a backslash at sp. */
  function CompileEscape(src: seq<byte>, sp: nat, eof: int, room: nat, st: CompState): Compiled
    requires NulFree(src) && sp < |src| && st.Valid()
    decreases |src| - sp, 1
  {
    var c := At(src, sp + 1);
    if c == LPAREN then
      if st.nbra >= NBRA then Failed(43)
      else
        var st2 := st.Emit([CBRA, st.nbra]);
        CompileFrom(src, sp + 2, eof, room, st2.(bracket := st.bracket + [st.nbra], nbra := st.nbra + 1))
    else if c == RPAREN then
      if st.bracket == [] then Failed(42)
      else
        var top := |st.bracket| - 1;
        var st2 := st.Emit([CKET, st.bracket[top]]);
        CompileFrom(src, sp + 2, eof, room, st2.(bracket := st.bracket[..top], closed := st.closed + 1))
    else if c == LBRACE && st.lastep.Some? then CompileBrace(src, sp, eof, room, st)
    else if c == NEWLINE then Failed(36)
    else if c == LETTER_N then CompileFrom(src, sp + 2, eof, room, st.Emit([CCHR, NEWLINE]))
    else if ONE <= c <= NINE then
      if c - ONE >= st.closed then Failed(25)
      else CompileFrom(src, sp + 2, eof, room, st.Emit([CBACK, c - ONE]))
    else if c == 0 then Overrun
    else CompileFrom(src, sp + 2, eof, room, st.Emit([CCHR, c]))
  }

  /** An interval whose `\{` is at sp. */
  function CompileBrace(src: seq<byte>, sp: nat, eof: int, room: nat, st: CompState): Compiled
    requires NulFree(src) && sp + 2 <= |src| && st.Valid() && st.lastep.Some?
    decreases |src| - sp, 0
  {
    match ScanInterval(src, sp + 2)
    case IntervalError(err) => Failed(err)
    case Interval(lo, hi, j) =>
      var k := st.lastep.value;
      CompileFrom(src, j, eof, room, st.(code := st.code[k := OrRange(st.code[k])] + [lo, hi]))
  }

  const START_STATE := CompState([], None, [], 0, 0)

  /** Does the pattern at sp start with `^`? */
  predicate StartsAnchored(src: seq<byte>, sp: nat)
    requires sp <= |src|
  {
    At(src, sp) == CARET
  }

  function Compile(src: seq<byte>, sp: nat, eof: int, room: nat): Compiled
    requires NulFree(src) && sp <= |src|
  {
    var c := At(src, sp);
    if c == eof then NoPattern(sp + 1)
    else if c == NEWLINE then NoPattern(sp)
    else CompileFrom(src, if StartsAnchored(src, sp) then sp + 1 else sp, eof, room, START_STATE)
  }
}
