/** `-n /pattern/p` as a search: from the text of the pattern to the lines written. */
module Searches {
  import opened Options
  import opened Bytes
  import opened MatchSpec
  import opened MatchFacts
  import opened Stepper
  import opened Program
  import opened Pattern
  import opened Translation
  import opened PatternSearch
  import opened Templates
  import opened Script
  import opened Evaluation
  import opened Substitution
  import opened PushPull
  import opened Chunks
  import opened Filters
  import Idioms

  /** Some text of the line is in the pattern's language. */
  ghost predicate Holds(r: Regex, line: seq<byte>) {
    exists i: nat :: i <= |line| && Begins(r, line, i)
  }

  /** The lines that hold a text of the pattern's language, in their order. */
  ghost function Holding(r: Regex, lines: seq<seq<byte>>): seq<seq<byte>> {
    if lines == [] then [] else (if Holds(r, lines[0]) then [lines[0]] else []) + Holding(r, lines[1..])
  }

  /** The pattern as an address. */
  ghost function Printer(r: Regex, eof: byte): Expr
    requires Valid(r, eof)
  {
    Expr(r.anchored, Code(r, eof))
  }

  lemma MatchesHolding(r: Regex, eof: byte, line: seq<byte>)
    requires Valid(r, eof) && ClosedReferences(r.pieces, [], 0)
    ensures FirstMatch(Printer(r, eof), line).Match? <==> Holds(r, line)
  {
    hide Begins, Valid, ClosedReferences, Code;
    FindsFirstText(r, eof, line);
    var m, groups := FirstMatch(Printer(r, eof), line), Groups(Code(r, eof));
    if m.Match? {
      PatternIsExpr(r, eof);
      FirstOnly(Printer(r, eof), line);
      MatchBegins(r, line, m, groups);
    }
  }

  lemma MatchBegins(r: Regex, line: seq<byte>, m: Match, groups: nat)
    requires FirstText(r, line, m, groups) && m.Match?
    ensures m.start <= |line| && Begins(r, line, m.start)
  {
  }

  lemma HoldingFirst(r: Regex, lines: seq<seq<byte>>, k: nat)
    requires k < |lines|
    ensures Unlines(Holding(r, lines[k..]))
            == (if Holds(r, lines[k]) then lines[k] + [NEWLINE] else []) + Unlines(Holding(r, lines[k + 1..]))
  {
    hide Holds;
    var rest := Holding(r, lines[k + 1..]);
    assert lines[k..][1..] == lines[k + 1..];
    assert ([lines[k]] + rest)[1..] == rest;
    assert [] + rest == rest;
  }

  /** w writes exactly the lines that hold a text of the language. */
  ghost predicate WritesHolding(w: Writer, r: Regex) {
    forall done: seq<seq<byte>>, last: bool ::
      NulFree(Current(done)) ==>
        w(done, last) == if Holds(r, Current(done)) then Current(done) + [NEWLINE] else []
  }

  lemma {:induction false} EachHolding(w: Writer, r: Regex, lines: seq<seq<byte>>, k: nat)
    requires WritesHolding(w, r) && k <= |lines| && forall j :: 0 <= j < |lines| ==> NulFree(lines[j])
    ensures Each(w, lines, k) == Unlines(Holding(r, lines[k..]))
    decreases |lines| - k
  {
    hide Holds, Unlines;
    if k < |lines| {
      EachHolding(w, r, lines, k + 1);
      HoldingFirst(r, lines, k);
      assert Current(lines[..k + 1]) == lines[k];
    } else {
      Idioms.NothingUnlined();
    }
  }

  /**
   * `-n /pattern/p` writes exactly the lines of the text that hold a text of the pattern's language, in their order.
   */
  lemma PrintsHolding(r: Regex, eof: byte, text: seq<byte>, n: nat)
    requires Valid(r, eof) && ClosedReferences(r.pieces, [], 0) && NulFree(text) && n > 0
    ensures var sc := Script([OneNode(Print, Some(Matching(Printer(r, eof))), false)], true);
            && ValidScript(sc)
            && var out := Pushed(sc, text, n);
               out.Some? && out.value.s.out == Unlines(Holding(r, Lines(text)))
  {
    hide Lines, Each, Holds, Unlines, Printer, Valid, ClosedReferences, FirstMatch;
    PatternIsExpr(r, eof);
    var ad := Some(Matching(Printer(r, eof)));
    assert ValidExpr(Printer(r, eof)) by {
      PrinterIs(r, eof);
    }
    OneCommand(Print, ad, false, true, text, n);
    var w := OneWrites(Print, ad, false, true);
    forall done: seq<seq<byte>>, last: bool | NulFree(Current(done))
      ensures w(done, last) == if Holds(r, Current(done)) then Current(done) + [NEWLINE] else []
    {
      MatchesHolding(r, eof, Current(done));
      assert Current(done) + [NEWLINE] + [] == Current(done) + [NEWLINE];
    }
    LinesProper(text);
    var lines := Lines(text);
    EachHolding(w, r, lines, 0);
    assert lines[0..] == lines;
  }

  lemma PrinterIs(r: Regex, eof: byte)
    requires Valid(r, eof)
    ensures Printer(r, eof) == Expr(r.anchored, Code(r, eof))
  {
  }
}
