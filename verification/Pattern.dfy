/** Basic regular expressions as written: their text, the strings they denote, and what they compile to. */
module Pattern {
  import opened Bytes
  import opened Program
  import opened RegexSpec

  // ----- syntax -----

  /** A member of a bracket class after the first: one character, or `-c`, a range from the member before it. */
  datatype ClassItem = Single(c: byte) | Upto(c: byte)

  datatype Symbol =
    | Plain(c: byte)
    | Quoted(c: byte)
    | NewlineEscape
    | AnyCharacter
    | Bracket(neg: bool, first: byte, rest: seq<ClassItem>, dash: bool)

  /** Numbers are kept as their digits. */
  datatype Times = One | Asterisk | Exactly(n: seq<byte>) | AtLeast(n: seq<byte>) | Between(n: seq<byte>, m: seq<byte>)

  datatype Piece = Sym(symbol: Symbol, times: Times) | Open | Close | Ref(group: byte)

  datatype Regex = Regex(anchored: bool, pieces: seq<Piece>, dollar: bool)

  // ----- what it denotes -----

  function Value(digits: seq<byte>): int {
    if digits == [] then 0 else 10 * Value(digits[..|digits| - 1]) + (digits[|digits| - 1] - ZERO)
  }

  predicate ItemHas(before: byte, item: ClassItem, b: byte) {
    match item
    case Single(c) => b == c
    case Upto(c) => before <= b <= c || b == c
  }

  function Before(first: byte, rest: seq<ClassItem>, k: nat): byte
    requires k <= |rest|
  {
    if k == 0 then first else rest[k - 1].c
  }

  /** Is b one of the listed characters or in one of the ranges? */
  predicate Listed(first: byte, rest: seq<ClassItem>, dash: bool, b: byte) {
    b == first || (dash && b == MINUS) || exists k: nat :: k < |rest| && ItemHas(Before(first, rest, k), rest[k], b)
  }

  /** The characters a symbol stands for; never NUL. */
  predicate Denotes(s: Symbol, b: byte) {
    b != 0 &&
    match s
    case Plain(c) => b == c
    case Quoted(c) => b == c
    case NewlineEscape => b == NEWLINE
    case AnyCharacter => true
    case Bracket(neg, first, rest, dash) => Listed(first, rest, dash, b) != neg
  }

  predicate Permits(t: Times, count: nat) {
    match t
    case One => count == 1
    case Asterisk => true
    case Exactly(n) => count == Value(n)
    case AtLeast(n) => Value(n) <= count <= Value(n) + OPEN_ENDED_COPIES
    case Between(n, m) => Value(n) <= count <= Value(m)
  }

  /** A group that is open, and what has been read since it was opened. */
  datatype OpenGroup = OpenGroup(index: nat, text: seq<byte>)

  function Extended(open: seq<OpenGroup>, t: seq<byte>): (r: seq<OpenGroup>)
    ensures |r| == |open| && forall k :: 0 <= k < |r| ==> r[k] == OpenGroup(open[k].index, open[k].text + t)
  {
    seq(|open|, k requires 0 <= k < |open| => OpenGroup(open[k].index, open[k].text + t))
  }

  /**
   * The pieces, one after the other, match s. A symbol matches its characters, a reference exactly the text its group
   * stands for; texts are those of the groups closed so far, and in the end captured.
   */
  ghost predicate Spells(pieces: seq<Piece>, open: seq<OpenGroup>, nbra: nat, texts: map<nat, seq<byte>>, s: seq<byte>,
                         captured: map<nat, seq<byte>>)
    decreases |pieces|
  {
    if pieces == [] then s == [] && captured == texts
    else
      var rest := pieces[1..];
      match pieces[0]
      case Sym(symbol, times) =>
        exists k: nat ::
          && k <= |s| && Permits(times, k) && (forall j :: 0 <= j < k ==> Denotes(symbol, s[j]))
          && Spells(rest, Extended(open, s[..k]), nbra, texts, s[k..], captured)
      case Open => Spells(rest, open + [OpenGroup(nbra, [])], nbra + 1, texts, s, captured)
      case Close =>
        && open != []
        && var top := open[|open| - 1];
           Spells(rest, open[..|open| - 1], nbra, texts[top.index := top.text], s, captured)
      case Ref(group) =>
        && group > 0 && group - 1 in texts
        && var t := texts[group - 1];
           t <= s && Spells(rest, Extended(open, t), nbra, texts, s[|t|..], captured)
  }

  /** The strings of the pattern's language, and what each of its groups, counted from 0, stands for in them. */
  ghost predicate Language(pieces: seq<Piece>, s: seq<byte>, captured: map<nat, seq<byte>>) {
    Spells(pieces, [], 0, map[], s, captured)
  }

  // ----- how it is written -----

  function ShowItems(rest: seq<ClassItem>): seq<byte> {
    if rest == [] then []
    else (if rest[0].Single? then [rest[0].c] else [MINUS, rest[0].c]) + ShowItems(rest[1..])
  }

  function ShowSymbol(s: Symbol): (t: seq<byte>)
    ensures t != []
  {
    match s
    case Plain(c) => [c]
    case Quoted(c) => [BACKSLASH, c]
    case NewlineEscape => [BACKSLASH, LETTER_N]
    case AnyCharacter => [DOT]
    case Bracket(neg, first, rest, dash) =>
      [LBRACKET] + (if neg then [CARET] else [])
      + ([first] + ShowItems(rest) + (if dash then [MINUS] else []) + [RBRACKET])
  }

  function ShowTimes(t: Times): seq<byte> {
    match t
    case One => []
    case Asterisk => [ASTERISK]
    case Exactly(n) => [BACKSLASH, LBRACE] + (n + [BACKSLASH, RBRACE])
    case AtLeast(n) => [BACKSLASH, LBRACE] + (n + [COMMA, BACKSLASH, RBRACE])
    case Between(n, m) => [BACKSLASH, LBRACE] + (n + [COMMA] + (m + [BACKSLASH, RBRACE]))
  }

  function ShowPiece(p: Piece): (t: seq<byte>)
    ensures t != []
  {
    match p
    case Sym(symbol, times) => ShowSymbol(symbol) + ShowTimes(times)
    case Open => [BACKSLASH, LPAREN]
    case Close => [BACKSLASH, RPAREN]
    case Ref(group) => [BACKSLASH, ZERO + (if group <= 9 then group else 9)]
  }

  function ShowPieces(pieces: seq<Piece>): seq<byte> {
    if pieces == [] then [] else ShowPiece(pieces[0]) + ShowPieces(pieces[1..])
  }

  function ShowEnd(dollar: bool, eof: byte): (t: seq<byte>)
    ensures t != []
  {
    if dollar then [DOLLAR, eof] else [eof]
  }

  /** The pattern's text and the delimiter that ends it. */
  function Show(r: Regex, eof: byte): seq<byte> {
    (if r.anchored then [CARET] else []) + (ShowPieces(r.pieces) + ShowEnd(r.dollar, eof))
  }

  // ----- which patterns can be written that way, and mean what they should -----

  /** What the piece before was, for the characters whose meaning depends on it. */
  datatype Prev = Nothing | Paren | Atomic

  predicate ValidClass(neg: bool, first: byte, rest: seq<ClassItem>) {
    first != 0 && first != NEWLINE && (!neg ==> first != CARET) && ValidItems(rest)
  }

  predicate ValidItems(rest: seq<ClassItem>) {
    forall k :: 0 <= k < |rest| ==>
      rest[k].c != 0 && rest[k].c != RBRACKET && (rest[k].Single? ==> rest[k].c != NEWLINE && rest[k].c != MINUS)
  }

  /** last: nothing but the delimiter follows. */
  predicate ValidSymbol(s: Symbol, prev: Prev, eof: byte, last: bool) {
    match s
    case Plain(c) =>
      && c != 0 && c != NEWLINE && c != DOT && c != LBRACKET && c != BACKSLASH && c != eof
      && (c == ASTERISK ==> !prev.Atomic?) && (c == DOLLAR ==> !last)
    case Quoted(c) =>
      && eof != BACKSLASH && c != 0 && c != NEWLINE && c != LPAREN && c != RPAREN && c != LETTER_N
      && !(ONE <= c <= NINE)
      && (c == LBRACE ==> prev.Nothing?)
    case NewlineEscape => eof != BACKSLASH
    case AnyCharacter => eof != DOT
    case Bracket(neg, first, rest, _) => eof != LBRACKET && ValidClass(neg, first, rest)
  }

  predicate Digits(digits: seq<byte>) {
    digits != [] && forall k :: 0 <= k < |digits| ==> IsDigit(digits[k])
  }

  predicate ValidNumber(digits: seq<byte>) {
    Digits(digits) && Value(digits) < 255
  }

  predicate ValidTimes(t: Times, eof: byte) {
    match t
    case One => true
    case Asterisk => eof != ASTERISK
    case Exactly(n) => eof != BACKSLASH && ValidNumber(n)
    case AtLeast(n) => eof != BACKSLASH && ValidNumber(n)
    case Between(n, m) => eof != BACKSLASH && ValidNumber(n) && ValidNumber(m) && Value(n) <= Value(m)
  }

  /**
   * The pieces can be told apart in their text, groups nest and number at most nine, and references are such
   * as the compiler accepts: it compares the number with how many groups are closed.
   */
  predicate ValidPieces(pieces: seq<Piece>, prev: Prev, open: seq<byte>, nbra: nat, eof: byte, dollar: bool) {
    if pieces == [] then open == [] && (dollar ==> eof != DOLLAR)
    else
      var rest := pieces[1..];
      match pieces[0]
      case Sym(symbol, times) =>
        && ValidSymbol(symbol, prev, eof, times.One? && rest == [] && !dollar)
        && ValidTimes(times, eof) && ValidPieces(rest, Atomic, open, nbra, eof, dollar)
      case Open => eof != BACKSLASH && nbra < NBRA && ValidPieces(rest, Paren, open + [nbra], nbra + 1, eof, dollar)
      case Close => eof != BACKSLASH && open != [] && ValidPieces(rest, Paren, open[..|open| - 1], nbra, eof, dollar)
      case Ref(group) =>
        && eof != BACKSLASH && 1 <= group <= 9 && group - 1 < nbra - |open|
        && ValidPieces(rest, Atomic, open, nbra, eof, dollar)
  }

  predicate Valid(r: Regex, eof: byte) {
    && eof != 0 && ValidPieces(r.pieces, Nothing, [], 0, eof, r.dollar)
    && (r.anchored ==> eof != CARET)
    && (!r.anchored ==> r.pieces != [] || r.dollar)
    && (!r.anchored && r.pieces != [] && r.pieces[0].Sym? ==> r.pieces[0].symbol != Plain(CARET))
  }

  // ----- what it compiles to -----

  predicate HighByte(first: byte, rest: seq<ClassItem>) {
    first >= 128 || exists k :: 0 <= k < |rest| && rest[k].c >= 128
  }

  function AtomOf(s: Symbol): Atom {
    match s
    case Plain(c) => Chr(c)
    case Quoted(c) => Chr(c)
    case NewlineEscape => Chr(NEWLINE)
    case AnyCharacter => Dot
    case Bracket(neg, first, rest, dash) =>
      Cls((set b: byte | 0 <= b < 256 && Listed(first, rest, dash, b)), HighByte(first, rest), neg)
  }

  function QuantOf(t: Times): Quant
    requires ValidTimes(t, 0)
  {
    match t
    case One => Once
    case Asterisk => Star
    case Exactly(n) => ValueNonNegative(n); Range(Value(n), Value(n))
    case AtLeast(n) => ValueNonNegative(n); Range(Value(n), OPEN_ENDED)
    case Between(n, m) => ValueNonNegative(n); ValueNonNegative(m); Range(Value(n), Value(m))
  }

  lemma {:induction false} ValueNonNegative(digits: seq<byte>)
    requires forall k :: 0 <= k < |digits| ==> IsDigit(digits[k])
    ensures Value(digits) >= 0
  {
    if digits != [] {
      ValueNonNegative(digits[..|digits| - 1]);
    }
  }

  /** The instructions for the pieces, given the open groups and how many were opened so far. */
  function Instructions(pieces: seq<Piece>, prev: Prev, open: seq<byte>, nbra: nat, eof: byte, dollar: bool): seq<Instr>
    requires ValidPieces(pieces, prev, open, nbra, eof, dollar)
  {
    if pieces == [] then if dollar then [Dol, Eof] else [Eof]
    else
      var rest := pieces[1..];
      match pieces[0]
      case Sym(symbol, times) =>
        [Item(AtomOf(symbol), QuantOf(times))] + Instructions(rest, Atomic, open, nbra, eof, dollar)
      case Open => [Bra(nbra)] + Instructions(rest, Paren, open + [nbra], nbra + 1, eof, dollar)
      case Close => [Ket(open[|open| - 1])] + Instructions(rest, Paren, open[..|open| - 1], nbra, eof, dollar)
      case Ref(group) => [Back(group - 1)] + Instructions(rest, Atomic, open, nbra, eof, dollar)
  }

  function Code(r: Regex, eof: byte): seq<Instr>
    requires Valid(r, eof)
  {
    Instructions(r.pieces, Nothing, [], 0, eof, r.dollar)
  }

  // ----- the atoms denote what they should -----

  lemma AtomDenotes(s: Symbol, prev: Prev, eof: byte, last: bool, b: byte)
    requires ValidSymbol(s, prev, eof, last)
    ensures ValidAtom(AtomOf(s))
    ensures Has(AtomOf(s), b) <==> Denotes(s, b)
  {
    if s.Bracket? {
      ListedBytes(s.neg, s.first, s.rest, s.dash);
    }
  }

  /** No class lists NUL, and one without high bytes lists none. */
  lemma ListedBytes(neg: bool, first: byte, rest: seq<ClassItem>, dash: bool)
    requires ValidClass(neg, first, rest)
    ensures !Listed(first, rest, dash, 0)
    ensures !HighByte(first, rest) ==> forall b: byte :: Listed(first, rest, dash, b) ==> b < 128
  {
    forall k: nat | k < |rest|
      ensures !ItemHas(Before(first, rest, k), rest[k], 0)
    {
      assert Before(first, rest, k) != 0;
    }
    if !HighByte(first, rest) {
      forall b: byte | Listed(first, rest, dash, b)
        ensures b < 128
      {
        if b != first && !(dash && b == MINUS) {
          var k: nat :| k < |rest| && ItemHas(Before(first, rest, k), rest[k], b);
          assert rest[k].c < 128;
        }
      }
    }
  }

  // ----- the program of a pattern is well formed -----

  /** No reference is to a group that is still open. */
  predicate ClosedReferences(pieces: seq<Piece>, open: seq<byte>, nbra: nat) {
    pieces == [] ||
    var rest := pieces[1..];
    match pieces[0]
    case Sym(_, _) => ClosedReferences(rest, open, nbra)
    case Open => nbra >= NBRA || ClosedReferences(rest, open + [nbra], nbra + 1)
    case Close => open == [] || ClosedReferences(rest, open[..|open| - 1], nbra)
    case Ref(group) => (group == 0 || group - 1 !in open) && ClosedReferences(rest, open, nbra)
  }

  /**
   * A pattern compiles to whole instructions ending in one Eof, with groups properly nested and numbered in order below
   * nine, and with each back-reference below the number of groups closed before it. The program is well formed, as the
   * matcher needs it, exactly when no reference is to a group that is still open.
   */
  lemma {:induction false} InstructionsWellFormed(pieces: seq<Piece>, prev: Prev, open: seq<byte>, nbra: nat,
                                                  eof: byte, dollar: bool)
    requires ValidPieces(pieces, prev, open, nbra, eof, dollar)
    ensures Assembled(Instructions(pieces, prev, open, nbra, eof, dollar), open, nbra)
    ensures WellFormed(Instructions(pieces, prev, open, nbra, eof, dollar), open, nbra)
            <==> ClosedReferences(pieces, open, nbra)
    decreases |pieces|, 1
  {
    hide WellFormed, Assembled;
    if pieces == [] {
      EndWellFormed(dollar, open, nbra);
    } else {
      var rest := pieces[1..];
      match pieces[0]
      case Sym(symbol, times) =>
        AtomDenotes(symbol, prev, eof, times.One? && rest == [] && !dollar, 0);
        InstructionsWellFormed(rest, Atomic, open, nbra, eof, dollar);
        WellFormedFirst(Item(AtomOf(symbol), QuantOf(times)), Instructions(rest, Atomic, open, nbra, eof, dollar),
                        open, nbra);
      case Ref(group) =>
        InstructionsWellFormed(rest, Atomic, open, nbra, eof, dollar);
        WellFormedFirst(Back(group - 1), Instructions(rest, Atomic, open, nbra, eof, dollar), open, nbra);
      case _ => GroupWellFormed(pieces, prev, open, nbra, eof, dollar);
    }
  }

  lemma {:induction false} GroupWellFormed(pieces: seq<Piece>, prev: Prev, open: seq<byte>, nbra: nat, eof: byte,
                                           dollar: bool)
    requires ValidPieces(pieces, prev, open, nbra, eof, dollar) && pieces != [] && (pieces[0].Open? || pieces[0].Close?)
    ensures Assembled(Instructions(pieces, prev, open, nbra, eof, dollar), open, nbra)
    ensures WellFormed(Instructions(pieces, prev, open, nbra, eof, dollar), open, nbra)
            <==> ClosedReferences(pieces, open, nbra)
    decreases |pieces|, 0
  {
    hide WellFormed, Assembled;
    var rest := pieces[1..];
    if pieces[0].Open? {
      InstructionsWellFormed(rest, Paren, open + [nbra], nbra + 1, eof, dollar);
      WellFormedFirst(Bra(nbra), Instructions(rest, Paren, open + [nbra], nbra + 1, eof, dollar), open, nbra);
    } else {
      InstructionsWellFormed(rest, Paren, open[..|open| - 1], nbra, eof, dollar);
      WellFormedFirst(Ket(open[|open| - 1]), Instructions(rest, Paren, open[..|open| - 1], nbra, eof, dollar), open,
                      nbra);
    }
  }

  lemma EndWellFormed(dollar: bool, open: seq<byte>, nbra: nat)
    requires open == []
    ensures var prog := if dollar then [Dol, Eof] else [Eof];
            WellFormed(prog, open, nbra) && Assembled(prog, open, nbra)
  {
    assert [Dol, Eof][1..] == [Eof] && [Eof][1..] == [];
  }

  /** What an instruction in front of a program makes of it. */
  lemma WellFormedFirst(i: Instr, prog: seq<Instr>, open: seq<byte>, nbra: nat)
    ensures i.Item? && ValidAtom(i.atom) && ValidQuant(i.quant) ==>
              && (WellFormed([i] + prog, open, nbra) <==> WellFormed(prog, open, nbra))
              && (Assembled([i] + prog, open, nbra) <==> Assembled(prog, open, nbra))
    ensures i.Bra? && i.n == nbra && nbra < NBRA ==>
              && (WellFormed([i] + prog, open, nbra) <==> WellFormed(prog, open + [i.n], nbra + 1))
              && (Assembled([i] + prog, open, nbra) <==> Assembled(prog, open + [i.n], nbra + 1))
    ensures i.Ket? && open != [] && i.n == open[|open| - 1] ==>
              && (WellFormed([i] + prog, open, nbra) <==> WellFormed(prog, open[..|open| - 1], nbra))
              && (Assembled([i] + prog, open, nbra) <==> Assembled(prog, open[..|open| - 1], nbra))
    ensures i.Back? && i.n < nbra - |open| ==>
              && (WellFormed([i] + prog, open, nbra) <==> i.n !in open && WellFormed(prog, open, nbra))
              && (Assembled([i] + prog, open, nbra) <==> Assembled(prog, open, nbra))
  {
    assert ([i] + prog)[1..] == prog;
  }

  /** Every back-reference of a pattern reads a span already written exactly when none is to an open group. */
  lemma ReferencesRead(r: Regex, eof: byte)
    requires Valid(r, eof)
    ensures ReadsWritten(Code(r, eof), {}, {}) <==> ClosedReferences(r.pieces, [], 0)
  {
    InstructionsWellFormed(r.pieces, Nothing, [], 0, eof, r.dollar);
    WellFormedReads(Code(r, eof), [], 0, {}, {});
  }
}
