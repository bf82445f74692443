/** From the text of a pattern to the match on a line: `sed_compile` and `sed_step` together. */
module PatternSearch {
  import opened Options
  import opened Bytes
  import opened Program
  import opened MatchSpec
  import opened MatchFacts
  import opened Stepper
  import opened RegexSpec
  import opened Pattern
  import opened Meaning
  import opened Translation
  import opened Substitution

  /** Some text of the line from i on, up to its end if the pattern says so, is in the pattern's language. */
  ghost predicate Begins(r: Regex, line: seq<byte>, i: nat) {
    (r.anchored ==> i == 0) && exists j: nat, c: map<nat, seq<byte>> :: MatchesAt(r, line, i, j, c)
  }

  /** m is the match of the first text of the line in the pattern's language, with the texts of the groups. */
  ghost predicate FirstText(r: Regex, line: seq<byte>, m: Match, groups: nat) {
    if m.NoMatch? then forall k: nat :: k <= |line| ==> !Begins(r, line, k)
    else
      && m.start <= |line| && (r.anchored ==> m.start == 0)
      && (forall k: nat :: k < m.start ==> !Begins(r, line, k))
      && exists c: map<nat, seq<byte>> ::
           MatchesAt(r, line, m.start, m.end, c) && Captures(line, m.spans, groups, c)
  }

  /**
   * A pattern written out and compiled finds a match on a line exactly when some text of the line is in the pattern's
   * language. The match it finds begins at the first such text, is one itself, and its spans are the texts that the
   * groups, and so the references to them, stand for in it.
   */
  lemma CompiledSearch(r: Regex, eof: byte, room: nat, before: seq<byte>, after: seq<byte>, line: seq<byte>)
    requires Valid(r, eof) && ClosedReferences(r.pieces, [], 0) && NulFree(before + Show(r, eof) + after)
    requires |Encode(Code(r, eof))| <= room
    ensures var src := before + Show(r, eof) + after;
            var c, e := Compile(src, |before|, eof, room), Expr(StartsAnchored(src, |before|), Code(r, eof));
            && c.Done? && [if e.circf then 1 else 0] + c.code == CodeOf(e) && ValidExpr(e) && c.nbra == Groups(e.prog)
            && FirstText(r, line, FirstMatch(e, line), c.nbra)
  {
    CompilesPattern(r, eof, room, before, after);
    InstructionsWellFormed(r.pieces, Nothing, [], 0, eof, r.dollar);
    FindsFirstText(r, eof, line);
  }

  lemma FindsFirstText(r: Regex, eof: byte, line: seq<byte>)
    requires Valid(r, eof) && ClosedReferences(r.pieces, [], 0)
    ensures FirstText(r, line, FirstMatch(Expr(r.anchored, Code(r, eof)), line), Groups(Code(r, eof)))
  {
    hide Code, Valid, ClosedReferences, MatchesAt, Captures, MatchSpec.Run;
    forall i: nat | i <= |line|
      ensures Begins(r, line, i) <==> (r.anchored ==> i == 0) && Run(Code(r, eof), line, i, None, NO_SPANS).Found?
    {
      RunDecidesLanguage(r, eof, line, i, NO_SPANS);
    }
    var m := FirstMatch(Expr(r.anchored, Code(r, eof)), line);
    if m.Match? {
      RunDecidesLanguage(r, eof, line, m.start, NO_SPANS);
    }
  }

  /** `\(.\)\1` matches two equal characters. */
  lemma DoubledCharacter(s: seq<byte>, c: map<nat, seq<byte>>)
    ensures Language([Open, Sym(AnyCharacter, One), Close, Ref(1)], s, c)
            <==> |s| == 2 && s[0] == s[1] != 0 && c == map[0 := [s[0]]]
  {
    hide Spells, Extended;
    var ref: seq<Piece> := [Ref(1)];
    var close := [Close] + ref;
    var any := [Sym(AnyCharacter, One)] + close;
    assert [Open, Sym(AnyCharacter, One), Close, Ref(1)] == [Open] + any;
    var none: seq<OpenGroup> := [];
    assert none + [OpenGroup(0, [])] == [OpenGroup(0, [])];
    OpenSpells(any, none, 0, map[], s, c);
    OneSpells(AnyCharacter, close, [OpenGroup(0, [])], 1, map[], s, c);
    if s != [] {
      CloseSpells(ref, [OpenGroup(0, [s[0]])], 1, map[], s[1..], c);
      assert [OpenGroup(0, [s[0]])][..0] == [];
      LastRefSpells(s[0], s[1..], c);
    }
  }

  lemma OpenSpells(rest: seq<Piece>, open: seq<OpenGroup>, nbra: nat, texts: map<nat, seq<byte>>, s: seq<byte>,
                   c: map<nat, seq<byte>>)
    ensures Spells([Open] + rest, open, nbra, texts, s, c)
            <==> Spells(rest, open + [OpenGroup(nbra, [])], nbra + 1, texts, s, c)
  {
    assert ([Open] + rest)[1..] == rest;
  }

  lemma CloseSpells(rest: seq<Piece>, open: seq<OpenGroup>, nbra: nat, texts: map<nat, seq<byte>>, s: seq<byte>,
                    c: map<nat, seq<byte>>)
    requires open != []
    ensures var n, top := |open| - 1, open[|open| - 1];
            Spells([Close] + rest, open, nbra, texts, s, c)
            <==> Spells(rest, open[..n], nbra, texts[top.index := top.text], s, c)
  {
    assert ([Close] + rest)[1..] == rest;
  }

  lemma OneSpells(symbol: Symbol, rest: seq<Piece>, open: seq<OpenGroup>, nbra: nat, texts: map<nat, seq<byte>>,
                  s: seq<byte>, c: map<nat, seq<byte>>)
    ensures Spells([Sym(symbol, One)] + rest, open, nbra, texts, s, c)
            <==> s != [] && Denotes(symbol, s[0]) && Spells(rest, Extended(open, [s[0]]), nbra, texts, s[1..], c)
    ensures |open| == 1 && open[0].text == [] && s != [] ==>
              Extended(open, [s[0]]) == [OpenGroup(open[0].index, [s[0]])]
  {
    assert ([Sym(symbol, One)] + rest)[1..] == rest;
    if s != [] {
      assert Permits(One, 1) && s[..1] == [s[0]];
      if |open| == 1 && open[0].text == [] {
        assert open[0].text + [s[0]] == [s[0]];
      }
    }
  }

  lemma LastRefSpells(b: byte, s: seq<byte>, c: map<nat, seq<byte>>)
    ensures Spells([Ref(1)], [], 1, map[0 := [b]], s, c) <==> s == [b] && c == map[0 := [b]]
  {
    assert [Ref(1)][1..] == [];
  }

  /** Some piece is a symbol. */
  predicate HasSymbol(pieces: seq<Piece>) {
    pieces != [] && (pieces[0].Sym? || HasSymbol(pieces[1..]))
  }

  /** What the first instruction says about the rest. */
  lemma FirstConsumes(x: Instr, rest: seq<Instr>)
    ensures Consumes([x] + rest) <==> x.Item? || x.Dol? || (!x.Eof? && Consumes(rest))
  {
    assert ([x] + rest)[1..] == rest;
  }

  lemma {:induction false} SymbolsConsume(pieces: seq<Piece>, prev: Prev, open: seq<byte>, nbra: nat, eof: byte,
                                          dollar: bool)
    requires ValidPieces(pieces, prev, open, nbra, eof, dollar)
    ensures Consumes(Instructions(pieces, prev, open, nbra, eof, dollar)) <==> dollar || HasSymbol(pieces)
    decreases |pieces|
  {
    hide Consumes;
    if pieces == [] {
      FirstConsumes(Dol, [Eof]);
      FirstConsumes(Eof, []);
      assert [Dol] + [Eof] == [Dol, Eof] && [Eof] + [] == [Eof];
    } else {
      var (x, rest) := FirstInstruction(pieces, prev, open, nbra, eof, dollar);
      FirstConsumes(x, rest);
      if pieces[0].Open? {
        SymbolsConsume(pieces[1..], Paren, open + [nbra], nbra + 1, eof, dollar);
      } else if pieces[0].Close? {
        SymbolsConsume(pieces[1..], Paren, open[..|open| - 1], nbra, eof, dollar);
      } else if pieces[0].Ref? {
        SymbolsConsume(pieces[1..], Atomic, open, nbra, eof, dollar);
      }
    }
  }

  function FirstInstruction(pieces: seq<Piece>, prev: Prev, open: seq<byte>, nbra: nat, eof: byte,
                            dollar: bool): (r: (Instr, seq<Instr>))
    requires ValidPieces(pieces, prev, open, nbra, eof, dollar) && pieces != []
    ensures [r.0] + r.1 == Instructions(pieces, prev, open, nbra, eof, dollar)
    ensures r.0.Item? <==> pieces[0].Sym?
    ensures !r.0.Dol? && !r.0.Eof?
  {
    var rest := pieces[1..];
    match pieces[0]
    case Sym(symbol, times) =>
      (Item(AtomOf(symbol), QuantOf(times)), Instructions(rest, Atomic, open, nbra, eof, dollar))
    case Open => (Bra(nbra), Instructions(rest, Paren, open + [nbra], nbra + 1, eof, dollar))
    case Close => (Ket(open[|open| - 1]), Instructions(rest, Paren, open[..|open| - 1], nbra, eof, dollar))
    case Ref(group) => (Back(group - 1), Instructions(rest, Atomic, open, nbra, eof, dollar))
  }

  /**
   * A substitution of every match gets on with every pass, on every line, exactly if the pattern has a symbol or a
   * `$`.
   */
  lemma SubstitutionProgresses(r: Regex, eof: byte)
    requires Valid(r, eof) && !r.anchored && ClosedReferences(r.pieces, [], 0)
    ensures var e := Expr(false, Code(r, eof));
            ValidExpr(e)
            && ((forall line: seq<byte>, from: nat :: from < |line| && NextMatch(e, line, from).Match? ==>
                   NextMatch(e, line, from).end > from)
                <==> r.dollar || HasSymbol(r.pieces))
  {
    InstructionsWellFormed(r.pieces, Nothing, [], 0, eof, r.dollar);
    SymbolsConsume(r.pieces, Nothing, [], 0, eof, r.dollar);
    ProgressCondition(Expr(false, Code(r, eof)));
  }

  // ----- a star behind a group -----

  /** `\(a\)*` matches an a and a star: behind a group the star stands for itself. */
  lemma StarBehindGroup()
    ensures var r := Regex(false, [Open, Sym(Plain(LETTER_A), One), Close, Sym(Plain(ASTERISK), One)], false);
            && Valid(r, SLASH)
            && Show(r, SLASH) == [BACKSLASH, LPAREN, LETTER_A, BACKSLASH, RPAREN, ASTERISK, SLASH]
            && Code(r, SLASH) == [Bra(0), Item(Chr(LETTER_A), Once), Ket(0), Item(Chr(ASTERISK), Once), Eof]
  {
    var star := [Sym(Plain(ASTERISK), One)];
    var close := [Close] + star;
    var a := [Sym(Plain(LETTER_A), One)] + close;
    var all := [Open] + a;
    assert star[1..] == [] && close[1..] == star && a[1..] == close && all[1..] == a;
    assert [Open, Sym(Plain(LETTER_A), One), Close, Sym(Plain(ASTERISK), One)] == all;
    assert [] + [0] == [0] && [0][..0] == [];
    assert ValidPieces(star, Paren, [], 1, SLASH, false);
    assert ValidPieces(close, Atomic, [0], 1, SLASH, false);
    assert ValidPieces(a, Paren, [0], 1, SLASH, false);
    assert Instructions(star, Paren, [], 1, SLASH, false) == [Item(Chr(ASTERISK), Once)] + [Eof];
    assert [Item(Chr(ASTERISK), Once)] + [Eof] == [Item(Chr(ASTERISK), Once), Eof];
    assert Instructions(close, Atomic, [0], 1, SLASH, false) == [Ket(0)] + [Item(Chr(ASTERISK), Once), Eof];
    assert Instructions(a, Paren, [0], 1, SLASH, false)
           == [Item(Chr(LETTER_A), Once)] + ([Ket(0)] + [Item(Chr(ASTERISK), Once), Eof]);
    assert ShowPieces(star) == [ASTERISK];
    assert ShowPieces(close) == [BACKSLASH, RPAREN] + [ASTERISK];
    assert ShowPieces(close) == [BACKSLASH, RPAREN, ASTERISK];
    assert ShowPieces(a) == [LETTER_A] + [BACKSLASH, RPAREN, ASTERISK];
  }

  // ----- a reference to a group that is still open -----

  const SLASH: byte := 47
  const LETTER_A: byte := 97
  const LETTER_B: byte := 98

  const OPEN_REFERENCE: seq<Piece> :=
    [Open, Sym(Plain(LETTER_A), One), Open, Sym(Plain(LETTER_B), One), Close, Ref(1), Close]

  const ITS_PROGRAM: seq<Instr> :=
    [Bra(0), Item(Chr(LETTER_A), Once), Bra(1), Item(Chr(LETTER_B), Once), Ket(1), Back(0), Ket(0), Eof]

  /** Written `\(a\(b\)\1\)`, it compiles, although its reference is to the group it stands in. */
  lemma OpenReferenceCompiles()
    ensures var r := Regex(false, OPEN_REFERENCE, false); Valid(r, SLASH) && Code(r, SLASH) == ITS_PROGRAM
    ensures !ClosedReferences(OPEN_REFERENCE, [], 0)
  {
    InnerCompiles();
    var inner := [Sym(Plain(LETTER_B), One)] + [Close, Ref(1), Close];
    var p2 := [Open] + inner;
    var p1 := [Sym(Plain(LETTER_A), One)] + p2;
    assert OPEN_REFERENCE == [Open] + p1;
    assert p2[1..] == inner && p1[1..] == p2;
    assert [0] + [1] == [0, 1] && [] + [0] == [0];
    assert ValidPieces(p2, Atomic, [0], 1, SLASH, false) && !ClosedReferences(p2, [0], 1);
    assert Instructions(p2, Atomic, [0], 1, SLASH, false) == ITS_PROGRAM[2..];
    assert ValidPieces(p1, Paren, [0], 1, SLASH, false);
    assert Instructions(p1, Paren, [0], 1, SLASH, false) == ITS_PROGRAM[1..];
    assert OPEN_REFERENCE[1..] == p1 && ITS_PROGRAM == [Bra(0)] + ITS_PROGRAM[1..];
  }

  lemma InnerCompiles()
    ensures var inner := [Sym(Plain(LETTER_B), One)] + [Close, Ref(1), Close];
            && ValidPieces(inner, Paren, [0, 1], 2, SLASH, false) && !ClosedReferences(inner, [0, 1], 2)
            && Instructions(inner, Paren, [0, 1], 2, SLASH, false) == ITS_PROGRAM[3..]
  {
    TailCompiles();
    var tail: seq<Piece> := [Close] + [Ref(1), Close];
    var inner := [Sym(Plain(LETTER_B), One)] + tail;
    assert inner[1..] == tail && tail[1..] == [Ref(1), Close] && [Close, Ref(1), Close] == tail;
    assert [0, 1][..1] == [0];
    assert ValidPieces(tail, Atomic, [0, 1], 2, SLASH, false) && !ClosedReferences(tail, [0, 1], 2);
    assert Instructions(tail, Atomic, [0, 1], 2, SLASH, false) == [Ket(1)] + ITS_PROGRAM[5..];
    assert ITS_PROGRAM[3..] == [Item(Chr(LETTER_B), Once)] + ([Ket(1)] + ITS_PROGRAM[5..]);
  }

  lemma TailCompiles()
    ensures var tail: seq<Piece> := [Ref(1), Close];
            && ValidPieces(tail, Paren, [0], 2, SLASH, false) && !ClosedReferences(tail, [0], 2)
            && Instructions(tail, Paren, [0], 2, SLASH, false) == ITS_PROGRAM[5..]
  {
    var last: seq<Piece> := [Close];
    var tail := [Ref(1)] + last;
    assert last[1..] == [] && tail[1..] == last && tail == [Ref(1), Close];
    assert [0][..0] == [];
    assert ValidPieces(last, Atomic, [0], 2, SLASH, false);
    assert Instructions(last, Atomic, [0], 2, SLASH, false) == [Ket(0), Eof];
  }

  /**
   * Whether it matches depends on where an earlier match has left the end of the group: at the start of the line, when
   * the group was empty there, or behind the first character.
   */
  lemma OpenReferenceIsStale(empty: Spans, stale: Spans)
    requires empty.ends[0] == 0 && stale.ends[0] == 1
    ensures Run(ITS_PROGRAM, [LETTER_A, LETTER_B], 0, None, empty).Found?
    ensures Run(ITS_PROGRAM, [LETTER_A, LETTER_B], 0, None, stale).Fail?
  {
    var line := [LETTER_A, LETTER_B];
    var q := ITS_PROGRAM;
    var t1 := OpenAt(OpenAt(empty, 0, 0), 1, 1);
    var t2 := CloseAt(t1, 1, 2);
    assert q[7..][1..] == q[8..] && q[6..][1..] == q[7..] && q[5..][1..] == q[6..] && q[4..][1..] == q[5..];
    assert q[3..][1..] == q[4..] && q[2..][1..] == q[3..] && q[1..][1..] == q[2..];
    assert Repeats(t2, 0, line, 2);
    assert Run(q[6..], line, 2, None, t2).Found?;
    assert Run(q[4..], line, 2, None, t1).Found?;
    assert Run(q[2..], line, 1, None, OpenAt(empty, 0, 0)).Found?;
    var u1 := OpenAt(OpenAt(stale, 0, 0), 1, 1);
    var u2 := CloseAt(u1, 1, 2);
    assert line[0..1] == [LETTER_A] && line[2..] == [];
    assert !Repeats(u2, 0, line, 2);
    assert Run(q[4..], line, 2, None, u1).Fail?;
    assert Run(q[2..], line, 1, None, OpenAt(stale, 0, 0)).Fail?;
  }
}
