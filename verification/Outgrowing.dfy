/** A substitution that outgrows the line buffer while it is under way. */
module Outgrowing {
  import opened Options
  import opened Bytes
  import opened Program
  import opened MatchSpec
  import opened MatchFacts
  import opened Stepper
  import opened Substitution

  const X: byte := 120
  const Y: byte := 121

  /** `x` */
  const ONE_X: Expr := Expr(false, [Item(Chr(X), Once), Eof])

  const TWO_Y: seq<byte> := [Y, Y]

  lemma OneXValid()
    ensures ValidExpr(ONE_X) && Consumes(ONE_X.prog) && Groups(ONE_X.prog) == 0 && ValidTemplate(TWO_Y, 0)
  {
    assert ONE_X.prog[1..] == [Eof] && [Eof][1..] == [];
    assert TWO_Y[1..] == [Y] && [Y][1..] == [];
  }

  ghost predicate OnlyX(line: seq<byte>) {
    forall k :: 0 <= k < |line| ==> line[k] == X
  }

  /** Every x is a match of its own. */
  lemma EachX(line: seq<byte>, c: nat, locs: Option<nat>)
    requires OnlyX(line) && c < |line|
    ensures Scan(ONE_X.prog, line, c, locs, NO_SPANS) == Match(c, c + 1, NO_SPANS)
  {
    assert ONE_X.prog[1..] == [Eof];
    assert line[c] == X && Run([Eof], line, c + 1, locs, NO_SPANS) == Found(c + 1, NO_SPANS);
    assert Run(ONE_X.prog, line, c, locs, NO_SPANS) == Found(c + 1, NO_SPANS);
  }

  /** It becomes two bytes. */
  lemma EachTurn(line: seq<byte>, c: nat, k: nat)
    requires OnlyX(line) && c < |line|
    ensures MatchOf(Match(c, c + 1, NO_SPANS), line, 0) && ValidTemplate(TWO_Y, 0)
    ensures |Turn(line, c, Match(c, c + 1, NO_SPANS), TWO_Y, 0, GLOBAL, k)| == 2
  {
    var m := Match(c, c + 1, NO_SPANS);
    OneXValid();
    assert TWO_Y[1..] == [Y] && [Y][1..] == [];
    assert Expand([Y], line, m, 0) == [Y] + Expand([], line, m, 0);
    assert Expand(TWO_Y, line, m, 0) == [Y] + Expand([Y], line, m, 0);
  }

  lemma {:induction false} RestDoubles(line: seq<byte>, c: nat, k: nat, shown: nat, size: nat)
    requires OnlyX(line) && c <= |line| && ValidExpr(ONE_X) && Consumes(ONE_X.prog) && Groups(ONE_X.prog) == 0
    requires ValidTemplate(TWO_Y, 0)
    ensures RestFits(ONE_X, line, TWO_Y, GLOBAL, c, k, shown, size) <==> c == |line| || shown + 2 * (|line| - c) < size
    decreases |line| - c
  {
    hide Turn, Scan, Expand, ValidTemplate, Encode, WellFormed;
    if c < |line| {
      EachX(line, c, Some(c));
      EachTurn(line, c, k + 1);
      NextFits(ONE_X, line, TWO_Y, GLOBAL, c, k, shown, size);
      RestDoubles(line, c + 1, k + 1, shown + 2, size);
    }
  }

  /** `s/x/yy/g` on a line of nothing but x fits the line buffer exactly if the doubled line does. */
  lemma Doubling(line: seq<byte>, size: nat)
    requires OnlyX(line) && line != []
    ensures ValidExpr(ONE_X) && ValidTemplate(TWO_Y, Groups(ONE_X.prog)) && Consumes(ONE_X.prog)
    ensures AllFit(ONE_X, line, TWO_Y, GLOBAL, size) <==> 2 * |line| < size
  {
    hide Turn, Scan, Expand, ValidTemplate, Encode, WellFormed;
    OneXValid();
    EachX(line, 0, None);
    EachTurn(line, 0, 1);
    FirstFits(ONE_X, line, TWO_Y, GLOBAL, size);
    RestDoubles(line, 1, 1, 2, size);
  }

  /** On a line of 1000 x, in a line buffer of its first size, it follows a pointer into the buffer it has given up. */
  lemma ThousandX(line: seq<byte>)
    requires OnlyX(line) && |line| == 1000
    ensures ValidExpr(ONE_X) && ValidTemplate(TWO_Y, Groups(ONE_X.prog)) && Consumes(ONE_X.prog)
    ensures SizeAfter(ONE_X, line, TWO_Y, GLOBAL, Some(INIT_BUF_SIZE)).None?
  {
    Doubling(line, INIT_BUF_SIZE);
    EachX(line, 0, None);
    assert Matches(ONE_X, line, GLOBAL) != [];
  }
}
