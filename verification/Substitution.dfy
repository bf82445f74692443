/** The `s` command: `substitute`, `match`, `dosub` and `place`, and the text they make of a line. */
module Substitution {
  import opened Options
  import opened Bytes
  import opened Program
  import opened MatchSpec
  import opened Matcher
  import opened MatchTheory
  import opened Stepper
  import opened MatchFacts

  const AMPERSAND: byte := 38

  /** The `g` flag, and numeric flags from here on, replace every match. */
  const GLOBAL: nat := 999

  const NO_SPANS: Spans := SpanTable([0, 0, 0, 0, 0, 0, 0, 0, 0], [0, 0, 0, 0, 0, 0, 0, 0, 0])

  /** A compiled regular expression: the `^` byte and the program behind it. */
  datatype Expr = Expr(circf: bool, prog: seq<Instr>)

  /** The bytes of a compiled expression. */
  function CodeOf(e: Expr): seq<byte> {
    [if e.circf then 1 else 0] + Encode(e.prog)
  }

  ghost predicate ValidExpr(e: Expr) {
    WellFormed(e.prog, [], 0)
  }

  // ----- the matches of a line -----

  /** The next match when the previous one ended at from: a repetition may not end there. */
  function NextMatch(e: Expr, line: seq<byte>, from: nat): Match
    requires from <= |line|
  {
    if e.circf then NoMatch else Scan(e.prog, line, from, Some(from), NO_SPANS)
  }

  function FirstMatch(e: Expr, line: seq<byte>): Match {
    Step(e.circf, e.prog, line, 0, None, NO_SPANS)
  }

  /** After a match that ended at from, the remaining ones; there is none at the end of the line. */
  function MatchesFrom(e: Expr, line: seq<byte>, from: nat): seq<Match>
    requires from <= |line| && ValidExpr(e) && (e.circf || Consumes(e.prog))
    decreases |line| - from
  {
    if from == |line| then []
    else
      NextIsLater(e, line, from);
      var m := NextMatch(e, line, from);
      if m.NoMatch? then [] else [m] + MatchesFrom(e, line, m.end)
  }

  /** Each pass leaves a strictly shorter unscanned suffix. */
  lemma NextIsLater(e: Expr, line: seq<byte>, from: nat)
    requires from < |line| && ValidExpr(e) && (e.circf || Consumes(e.prog))
    ensures var m := NextMatch(e, line, from);
            m.Match? ==> from <= m.start && from < m.end <= |line| && m.start <= m.end
  {
    var m := NextMatch(e, line, from);
    if m.Match? {
      MatchInside(false, e.prog, line, from, Some(from), NO_SPANS);
      if m.start == from {
        RunFindsPreferred(e.prog, line, from, Some(from), NO_SPANS);
        PreferredIsReach(e.prog, line, from, Some(from), NO_SPANS, m.end, m.spans);
        Progress(e.prog, line, from, NO_SPANS, m.end, m.spans);
      }
    }
  }

  /**
   * Every pass makes progress, on every line, exactly for the patterns that match a character or ask for
   * the end of the line somewhere. A pattern of groups alone never gets beyond where it starts.
   */
  lemma ProgressCondition(e: Expr)
    requires ValidExpr(e) && !e.circf
    ensures (forall line: seq<byte>, from: nat :: from < |line| && NextMatch(e, line, from).Match? ==>
               NextMatch(e, line, from).end > from)
            <==> Consumes(e.prog)
  {
    if Consumes(e.prog) {
      forall line: seq<byte>, from: nat | from < |line| && NextMatch(e, line, from).Match?
        ensures NextMatch(e, line, from).end > from
      {
        NextIsLater(e, line, from);
      }
    } else {
      var line: seq<byte> := [ONE];
      Stalls(e.prog, [], 0, line, 0, Some(0), NO_SPANS);
      assert NextMatch(e, line, 0) == Match(0, 0, Run(e.prog, line, 0, Some(0), NO_SPANS).spans);
    }
  }

  /** The matches `s` looks at: the first, and with a flag all that follow it. */
  function Matches(e: Expr, line: seq<byte>, flag: nat): seq<Match>
    requires ValidExpr(e) && (flag == 0 || e.circf || Consumes(e.prog))
  {
    var m := FirstMatch(e, line);
    if m.NoMatch? then []
    else
      MatchInside(e.circf, e.prog, line, 0, None, NO_SPANS);
      [m] + if flag == 0 then [] else MatchesFrom(e, line, m.end)
  }

  // ----- the result of a substitution -----

  /** `\digit` refers to one of the groups, and no backslash ends the template. */
  predicate ValidTemplate(rhs: seq<byte>, groups: nat) {
    rhs == [] ||
    (rhs[0] != 0 &&
     if rhs[0] == BACKSLASH then
       && |rhs| > 1 && rhs[1] != 0 && (ONE <= rhs[1] <= NINE ==> rhs[1] - ZERO <= groups)
       && ValidTemplate(rhs[2..], groups)
     else ValidTemplate(rhs[1..], groups))
  }

  /** m is a match on the line, the groups inside it. */
  ghost predicate MatchOf(m: Match, line: seq<byte>, groups: nat) {
    m.Match? && m.start <= m.end <= |line| && Inside(m.spans, groups, m.start, m.end)
  }

  /** How many bytes of the template its first element takes. */
  function Width(rhs: seq<byte>, groups: nat): (w: nat)
    requires rhs != [] && ValidTemplate(rhs, groups)
    ensures 0 < w <= |rhs| && ValidTemplate(rhs[w..], groups)
  {
    if rhs[0] == BACKSLASH then 2 else 1
  }

  /**
   * What the first element of the template stands for: `&` and `\digit` are the text of the match and of its groups.
   */
  function Head(rhs: seq<byte>, line: seq<byte>, m: Match, groups: nat): seq<byte>
    requires rhs != [] && ValidTemplate(rhs, groups) && MatchOf(m, line, groups)
  {
    if rhs[0] == AMPERSAND then line[m.start..m.end]
    else if rhs[0] != BACKSLASH then [rhs[0]]
    else if ONE <= rhs[1] <= NINE then line[m.spans.starts[rhs[1] - ONE]..m.spans.ends[rhs[1] - ONE]]
    else [rhs[1]]
  }

  /** The text that replaces a match. */
  function Expand(rhs: seq<byte>, line: seq<byte>, m: Match, groups: nat): seq<byte>
    requires ValidTemplate(rhs, groups) && MatchOf(m, line, groups)
  {
    if rhs == [] then [] else Head(rhs, line, m, groups) + Expand(rhs[Width(rhs, groups)..], line, m, groups)
  }

  /** Is the k-th match, counting from 1, replaced? */
  predicate Chosen(flag: nat, k: nat) {
    flag == 0 || flag >= GLOBAL || flag == k
  }

  /** ms are matches of the line, in order, from position from on. */
  ghost predicate Ordered(line: seq<byte>, from: nat, ms: seq<Match>, groups: nat)
    decreases |ms|
  {
    from <= |line| &&
    (ms != [] ==> MatchOf(ms[0], line, groups) && from <= ms[0].start && Ordered(line, ms[0].end, ms[1..], groups))
  }

  /** The gap before a match, and the match or what replaces it. */
  function Turn(line: seq<byte>, from: nat, m: Match, rhs: seq<byte>, groups: nat, flag: nat, k: nat): seq<byte>
    requires MatchOf(m, line, groups) && from <= m.start && ValidTemplate(rhs, groups)
  {
    line[from..m.start] + if Chosen(flag, k) then Expand(rhs, line, m, groups) else line[m.start..m.end]
  }

  /** From position from on: the gaps between the matches, the chosen matches replaced, and the tail. */
  function Rebuild(line: seq<byte>, from: nat, ms: seq<Match>, rhs: seq<byte>, groups: nat, flag: nat,
                   k: nat): seq<byte>
    requires Ordered(line, from, ms, groups) && ValidTemplate(rhs, groups)
    decreases |ms|
  {
    if ms == [] then line[from..]
    else Turn(line, from, ms[0], rhs, groups, flag, k + 1) + Rebuild(line, ms[0].end, ms[1..], rhs, groups, flag, k + 1)
  }

  lemma {:induction false} MatchesFromOrdered(e: Expr, line: seq<byte>, from: nat)
    requires from <= |line| && ValidExpr(e) && (e.circf || Consumes(e.prog))
    ensures Ordered(line, from, MatchesFrom(e, line, from), Groups(e.prog))
    decreases |line| - from
  {
    if from < |line| {
      NextIsLater(e, line, from);
      var m := NextMatch(e, line, from);
      if m.Match? {
        MatchInside(false, e.prog, line, from, Some(from), NO_SPANS);
        MatchesFromOrdered(e, line, m.end);
        assert ([m] + MatchesFrom(e, line, m.end))[1..] == MatchesFrom(e, line, m.end);
      }
    }
  }

  lemma MatchesOrdered(e: Expr, line: seq<byte>, flag: nat)
    requires ValidExpr(e) && (flag == 0 || e.circf || Consumes(e.prog))
    ensures Ordered(line, 0, Matches(e, line, flag), Groups(e.prog))
  {
    var m := FirstMatch(e, line);
    if m.Match? {
      MatchInside(e.circf, e.prog, line, 0, None, NO_SPANS);
      if flag == 0 {
        assert ([m] + [])[1..] == [];
      } else {
        MatchesFromOrdered(e, line, m.end);
        assert ([m] + MatchesFrom(e, line, m.end))[1..] == MatchesFrom(e, line, m.end);
      }
    }
  }

  /** The line after `s`. */
  function Substituted(e: Expr, line: seq<byte>, rhs: seq<byte>, flag: nat): seq<byte>
    requires ValidExpr(e) && ValidTemplate(rhs, Groups(e.prog)) && (flag == 0 || e.circf || Consumes(e.prog))
  {
    MatchesOrdered(e, line, flag);
    Rebuild(line, 0, Matches(e, line, flag), rhs, Groups(e.prog), flag, 0)
  }

  /** Has `s` replaced anything? */
  predicate Replaces(flag: nat, count: nat) {
    count > 0 && (flag == 0 || flag >= GLOBAL || flag <= count)
  }

  /** So it has exactly if one of the matches is among those replaced. */
  lemma ReplacesChosen(flag: nat, count: nat)
    ensures Replaces(flag, count) <==> exists k: nat :: 1 <= k <= count && Chosen(flag, k)
  {
    if Replaces(flag, count) {
      assert Chosen(flag, if flag == 0 || flag >= GLOBAL then 1 else flag);
    }
  }

  /**
   * A line falls into the gaps between its matches, the matches and the tail: with no match chosen it stays what it
   * is.
   */
  lemma {:induction false} NoneChosen(line: seq<byte>, from: nat, ms: seq<Match>, rhs: seq<byte>, groups: nat,
                                      flag: nat, k: nat)
    requires Ordered(line, from, ms, groups) && ValidTemplate(rhs, groups)
    requires 0 < flag < GLOBAL && (flag <= k || k + |ms| < flag)
    ensures Rebuild(line, from, ms, rhs, groups, flag, k) == line[from..]
    decreases |ms|
  {
    if ms != [] {
      NoneChosen(line, ms[0].end, ms[1..], rhs, groups, flag, k + 1);
      assert Turn(line, from, ms[0], rhs, groups, flag, k + 1) == line[from..ms[0].end];
    }
  }

  /** The flag n replaces the n-th match and nothing else. */
  lemma {:induction false} OnlyNth(line: seq<byte>, from: nat, ms: seq<Match>, rhs: seq<byte>, groups: nat, flag: nat,
                                   k: nat)
    requires Ordered(line, from, ms, groups) && ValidTemplate(rhs, groups)
    requires 0 < flag < GLOBAL && k < flag <= k + |ms|
    ensures var m := ms[flag - k - 1];
            MatchOf(m, line, groups) && from <= m.start
            && Rebuild(line, from, ms, rhs, groups, flag, k)
               == line[from..m.start] + Expand(rhs, line, m, groups) + line[m.end..]
    decreases |ms|
  {
    hide Expand, ValidTemplate, Inside, Rebuild, Ordered, Turn;
    RebuildOnce(line, from, ms, rhs, groups, flag, k);
    TurnIs(line, from, ms[0], rhs, groups, flag, k + 1);
    if flag == k + 1 {
      NoneChosen(line, ms[0].end, ms[1..], rhs, groups, flag, k + 1);
    } else {
      OnlyNth(line, ms[0].end, ms[1..], rhs, groups, flag, k + 1);
      var m := ms[flag - k - 1];
      assert ms[1..][flag - k - 2] == m;
      Glue(line, from, ms[0].end, m.start, Expand(rhs, line, m, groups), line[m.end..]);
    }
  }

  lemma RebuildOnce(line: seq<byte>, from: nat, ms: seq<Match>, rhs: seq<byte>, groups: nat, flag: nat, k: nat)
    requires Ordered(line, from, ms, groups) && ValidTemplate(rhs, groups) && ms != []
    ensures MatchOf(ms[0], line, groups) && from <= ms[0].start <= ms[0].end <= |line|
    ensures Ordered(line, ms[0].end, ms[1..], groups)
    ensures Rebuild(line, from, ms, rhs, groups, flag, k)
            == Turn(line, from, ms[0], rhs, groups, flag, k + 1)
               + Rebuild(line, ms[0].end, ms[1..], rhs, groups, flag, k + 1)
  {
  }

  lemma TurnIs(line: seq<byte>, from: nat, m: Match, rhs: seq<byte>, groups: nat, flag: nat, k: nat)
    requires MatchOf(m, line, groups) && from <= m.start && ValidTemplate(rhs, groups)
    ensures from <= m.start <= m.end <= |line|
    ensures Turn(line, from, m, rhs, groups, flag, k)
            == if Chosen(flag, k) then line[from..m.start] + Expand(rhs, line, m, groups) else line[from..m.end]
  {
  }

  lemma Glue(line: seq<byte>, from: nat, mid: nat, to: nat, x: seq<byte>, tail: seq<byte>)
    requires from <= mid <= to <= |line|
    ensures line[from..mid] + (line[mid..to] + x + tail) == line[from..to] + x + tail
  {
    assert line[from..to] == line[from..mid] + line[mid..to];
  }

  /** Replacing matches by `&` changes nothing, whatever the pattern, the line and the flag. */
  lemma {:induction false} AmpersandIsIdentity(line: seq<byte>, from: nat, ms: seq<Match>, groups: nat, flag: nat,
                                               k: nat)
    requires Ordered(line, from, ms, groups)
    ensures Rebuild(line, from, ms, [AMPERSAND], groups, flag, k) == line[from..]
    decreases |ms|
  {
    hide Expand, Inside, Turn, Rebuild;
    if ms == [] {
      NothingToRebuild(line, from, [AMPERSAND], groups, flag, k);
    } else {
      RebuildOnce(line, from, ms, [AMPERSAND], groups, flag, k);
      TurnIs(line, from, ms[0], [AMPERSAND], groups, flag, k + 1);
      AmpersandIsMatch(line, ms[0], groups);
      AmpersandIsIdentity(line, ms[0].end, ms[1..], groups, flag, k + 1);
      Joins(line, from, ms[0].start, ms[0].end);
    }
  }

  lemma Joins(line: seq<byte>, from: nat, mid: nat, to: nat)
    requires from <= mid <= to <= |line|
    ensures line[from..mid] + line[mid..to] == line[from..to] && line[from..to] + line[to..] == line[from..]
  {
  }

  lemma AmpersandIsMatch(line: seq<byte>, m: Match, groups: nat)
    requires MatchOf(m, line, groups)
    ensures ValidTemplate([AMPERSAND], groups) && Expand([AMPERSAND], line, m, groups) == line[m.start..m.end]
  {
  }

  // ----- the working line: what has been replaced already, and the rest of the original line -----

  /** m1 on the working line is m2 on the original line, moved from position c to position p. */
  ghost predicate Corresponds(m1: Match, m2: Match, p: nat, c: nat, groups: nat) {
    if m2.NoMatch? then m1.NoMatch?
    else
      && m1.Match? && m1.start + c == m2.start + p && m1.end + c == m2.end + p && groups <= NBRA
      && forall n :: 0 <= n < groups ==>
        m1.spans.starts[n] + c == m2.spans.starts[n] + p && m1.spans.ends[n] + c == m2.spans.ends[n] + p
  }

  /** The search on the working line finds what the search on the original line would have found. */
  lemma NextCorresponds(e: Expr, done: seq<byte>, line: seq<byte>, c: nat, spans: Spans)
    requires c <= |line| && ValidExpr(e) && !e.circf
    ensures var m := Scan(e.prog, done + line[c..], |done|, Some(|done|), spans);
            Corresponds(m, NextMatch(e, line, c), |done|, c, Groups(e.prog))
  {
    var w := line[c..];
    ScanShifted(e.prog, done, w, 0, Some(0), spans, NO_SPANS);
    ScanShifted(e.prog, line[..c], w, 0, Some(0), NO_SPANS, NO_SPANS);
    assert line[..c] + w == line;
  }

  lemma FirstCorresponds(e: Expr, line: seq<byte>, spans: Spans)
    requires ValidExpr(e)
    ensures Corresponds(Step(e.circf, e.prog, line, 0, None, spans), FirstMatch(e, line), 0, 0, Groups(e.prog))
  {
    hide MatchSpec.Run, Scan, WellFormed, Groups;
    EmptySettled(NO_SPANS, 0);
    assert [] + line == line;
    if e.circf {
      RunShifted(e.prog, [], 0, [], line, 0, None, spans, NO_SPANS);
    } else {
      ScanShifted(e.prog, [], line, 0, None, spans, NO_SPANS);
    }
  }

  lemma {:induction false} ExpandCorresponds(rhs: seq<byte>, w: seq<byte>, line: seq<byte>, m1: Match, m2: Match,
                                             p: nat, c: nat, groups: nat)
    requires ValidTemplate(rhs, groups) && MatchOf(m1, w, groups) && MatchOf(m2, line, groups)
    requires Corresponds(m1, m2, p, c, groups) && c <= m2.start && p <= |w| && c <= |line| && w[p..] == line[c..]
    ensures Expand(rhs, w, m1, groups) == Expand(rhs, line, m2, groups)
    decreases |rhs|
  {
    hide Expand;
    if rhs == [] {
      NothingToExpand(w, m1, groups);
      NothingToExpand(line, m2, groups);
    } else {
      ExpandOnce(rhs, w, m1, groups);
      ExpandOnce(rhs, line, m2, groups);
      ExpandCorresponds(rhs[Width(rhs, groups)..], w, line, m1, m2, p, c, groups);
      if rhs[0] == AMPERSAND {
        SameStretch(w, line, p, c, m1.start, m1.end, m2.start, m2.end);
      } else if rhs[0] == BACKSLASH && ONE <= rhs[1] <= NINE {
        var n := rhs[1] - ONE;
        SameStretch(w, line, p, c, m1.spans.starts[n], m1.spans.ends[n], m2.spans.starts[n], m2.spans.ends[n]);
      }
    }
  }

  lemma SameStretch(w: seq<byte>, line: seq<byte>, p: nat, c: nat, i1: nat, j1: nat, i2: nat, j2: nat)
    requires p <= |w| && c <= i2 <= j2 <= |line| && w[p..] == line[c..]
    requires i1 + c == i2 + p && j1 + c == j2 + p
    ensures i1 <= j1 <= |w| && w[i1..j1] == line[i2..j2]
  {
    assert |w| - p == |line| - c;
    var i, j := i2 - c, j2 - c;
    Stretch(w, p, i, j);
    Stretch(line, c, i, j);
    assert i1 == p + i && j1 == p + j && i2 == c + i && j2 == c + j;
  }

  lemma Stretch(s: seq<byte>, p: nat, i: nat, j: nat)
    requires p <= |s| && i <= j <= |s[p..]|
    ensures s[p..][i..j] == s[p + i..p + j]
  {
  }

  lemma {:induction false} ExpandNulFree(rhs: seq<byte>, line: seq<byte>, m: Match, groups: nat)
    requires ValidTemplate(rhs, groups) && MatchOf(m, line, groups) && NulFree(line)
    ensures NulFree(Expand(rhs, line, m, groups))
    decreases |rhs|
  {
    if rhs != [] {
      ExpandNulFree(rhs[Width(rhs, groups)..], line, m, groups);
    }
  }

  /** One turn of the loop over the template. */
  lemma ExpandHead(rest: seq<byte>, line: seq<byte>, m: Match, groups: nat, before: seq<byte>)
    requires rest != [] && ValidTemplate(rest, groups) && MatchOf(m, line, groups)
    ensures (before + Head(rest, line, m, groups)) + Expand(rest[Width(rest, groups)..], line, m, groups)
            == before + Expand(rest, line, m, groups)
  {
    hide *;
    ExpandOnce(rest, line, m, groups);
    Assoc(before, Head(rest, line, m, groups), Expand(rest[Width(rest, groups)..], line, m, groups));
  }

  lemma ExpandOnce(rest: seq<byte>, line: seq<byte>, m: Match, groups: nat)
    requires rest != [] && ValidTemplate(rest, groups) && MatchOf(m, line, groups)
    ensures Expand(rest, line, m, groups)
            == Head(rest, line, m, groups) + Expand(rest[Width(rest, groups)..], line, m, groups)
  {
  }

  lemma NothingToExpand(line: seq<byte>, m: Match, groups: nat)
    requires MatchOf(m, line, groups)
    ensures Expand([], line, m, groups) == []
  {
  }

  lemma Assoc(a: seq<byte>, b: seq<byte>, c: seq<byte>)
    ensures (a + b) + c == a + (b + c)
  {
  }

  lemma NothingToRebuild(line: seq<byte>, from: nat, rhs: seq<byte>, groups: nat, flag: nat, k: nat)
    requires from <= |line| && ValidTemplate(rhs, groups)
    ensures Rebuild(line, from, [], rhs, groups, flag, k) == line[from..]
  {
  }

  lemma {:induction false} RebuildNulFree(line: seq<byte>, from: nat, ms: seq<Match>, rhs: seq<byte>, groups: nat,
                                          flag: nat, k: nat)
    requires Ordered(line, from, ms, groups) && ValidTemplate(rhs, groups) && NulFree(line)
    ensures NulFree(Rebuild(line, from, ms, rhs, groups, flag, k))
    decreases |ms|
  {
    hide Expand, Rebuild, Turn;
    if ms == [] {
      NothingToRebuild(line, from, rhs, groups, flag, k);
    } else {
      RebuildOnce(line, from, ms, rhs, groups, flag, k);
      TurnIs(line, from, ms[0], rhs, groups, flag, k + 1);
      ExpandNulFree(rhs, line, ms[0], groups);
      RebuildNulFree(line, ms[0].end, ms[1..], rhs, groups, flag, k + 1);
    }
  }

  lemma SubstitutedNulFree(e: Expr, line: seq<byte>, rhs: seq<byte>, flag: nat)
    requires ValidExpr(e) && ValidTemplate(rhs, Groups(e.prog)) && (flag == 0 || e.circf || Consumes(e.prog))
    requires NulFree(line)
    ensures NulFree(Substituted(e, line, rhs, flag))
  {
    MatchesOrdered(e, line, flag);
    RebuildNulFree(line, 0, Matches(e, line, flag), rhs, Groups(e.prog), flag, 0);
  }

  /** The match found on the working line, in terms of the original line. */
  lemma WorkingMatch(rhs: seq<byte>, done: seq<byte>, line: seq<byte>, c: nat, m1: Match, m2: Match, groups: nat,
                     flag: nat, k: nat)
    requires MatchOf(m2, line, groups) && c <= m2.start && Corresponds(m1, m2, |done|, c, groups)
    requires ValidTemplate(rhs, groups) && NulFree(line)
    ensures var w, done' := done + line[c..], done + Turn(line, c, m2, rhs, groups, flag, k);
            && MatchOf(m1, w, groups)
            && (if Chosen(flag, k) then done' == w[..m1.start] + Expand(rhs, w, m1, groups) else done' == w[..m1.end])
            && w[m1.end..] == line[m2.end..]
            && NulFree(Expand(rhs, w, m1, groups))
  {
    hide Expand, ValidTemplate, NulFree, Turn;
    var w := done + line[c..];
    WorkingText(done, line, c, m2.start);
    WorkingText(done, line, c, m2.end);
    MatchMoves(w, line, |done|, c, m1, m2, groups);
    ExpandNulFree(rhs, line, m2, groups);
    ExpandCorresponds(rhs, w, line, m1, m2, |done|, c, groups);
    TurnIs(line, c, m2, rhs, groups, flag, k);
    if Chosen(flag, k) {
      Assoc(done, line[c..m2.start], Expand(rhs, line, m2, groups));
    }
  }

  /** The working line up to what was position i of the original line, and from there on. */
  lemma WorkingText(done: seq<byte>, line: seq<byte>, c: nat, i: nat)
    requires c <= i <= |line|
    ensures var w, p := done + line[c..], |done| + (i - c);
            w[|done|..] == line[c..] && w[..p] == done + line[c..i] && w[p..] == line[i..]
  {
  }

  lemma MatchMoves(w: seq<byte>, line: seq<byte>, p: nat, c: nat, m1: Match, m2: Match, groups: nat)
    requires p <= |w| && c <= |line| && w[p..] == line[c..]
    requires MatchOf(m2, line, groups) && c <= m2.start && Corresponds(m1, m2, p, c, groups)
    ensures MatchOf(m1, w, groups)
  {
    assert |w| - p == |line| - c;
  }

  /** What has been made of the line up to position c, and what will be made of the rest of it. */
  function Remaining(e: Expr, line: seq<byte>, rhs: seq<byte>, flag: nat, done: seq<byte>, c: nat, k: nat): seq<byte>
    requires c <= |line| && ValidExpr(e) && ValidTemplate(rhs, Groups(e.prog)) && (e.circf || Consumes(e.prog))
  {
    MatchesFromOrdered(e, line, c);
    done + Rebuild(line, c, MatchesFrom(e, line, c), rhs, Groups(e.prog), flag, k)
  }

  lemma NextTurn(e: Expr, line: seq<byte>, rhs: seq<byte>, flag: nat, done: seq<byte>, c: nat, k: nat)
    requires c < |line| && ValidExpr(e) && ValidTemplate(rhs, Groups(e.prog)) && (e.circf || Consumes(e.prog))
    requires NextMatch(e, line, c).Match?
    ensures var m := NextMatch(e, line, c);
            && c <= m.start && MatchOf(m, line, Groups(e.prog))
            && |MatchesFrom(e, line, c)| == 1 + |MatchesFrom(e, line, m.end)|
            && Remaining(e, line, rhs, flag, done, c, k)
               == Remaining(e, line, rhs, flag, done + Turn(line, c, m, rhs, Groups(e.prog), flag, k + 1), m.end, k + 1)
  {
    NextIsLater(e, line, c);
    MatchInside(false, e.prog, line, c, Some(c), NO_SPANS);
    MatchesFromOrdered(e, line, c);
    var m := NextMatch(e, line, c);
    var rest := MatchesFrom(e, line, m.end);
    assert ([m] + rest)[1..] == rest;
    Assoc(done, Turn(line, c, m, rhs, Groups(e.prog), flag, k + 1),
          Rebuild(line, m.end, rest, rhs, Groups(e.prog), flag, k + 1));
  }

  lemma FirstTurn(e: Expr, line: seq<byte>, rhs: seq<byte>, flag: nat)
    requires ValidExpr(e) && ValidTemplate(rhs, Groups(e.prog)) && (flag == 0 || e.circf || Consumes(e.prog))
    requires FirstMatch(e, line).Match?
    ensures var m := FirstMatch(e, line);
            && MatchOf(m, line, Groups(e.prog))
            && |Matches(e, line, flag)| == 1 + (if flag == 0 then 0 else |MatchesFrom(e, line, m.end)|)
            && Substituted(e, line, rhs, flag)
               == (var t := Turn(line, 0, m, rhs, Groups(e.prog), flag, 1);
                   if flag == 0 then t + line[m.end..] else Remaining(e, line, rhs, flag, t, m.end, 1))
  {
    MatchInside(e.circf, e.prog, line, 0, None, NO_SPANS);
    MatchesOrdered(e, line, flag);
    var m, ms := FirstMatch(e, line), Matches(e, line, flag);
    if flag == 0 {
      assert ms[1..] == [];
      assert Rebuild(line, m.end, ms[1..], rhs, Groups(e.prog), flag, 1) == line[m.end..];
    } else {
      assert ms[1..] == MatchesFrom(e, line, m.end);
    }
  }

  // ----- the room in the line buffer -----

  /** The size of a buffer at first. */
  const INIT_BUF_SIZE: nat := 1024

  const ALIGNMENT: nat := 4096

  /** How much larger the buffer of the generated line becomes when it is full. */
  const MORE: nat := 1024

  /** The size of a buffer that has been allocated. */
  type Size = n: nat | n > 0 witness 1

  /** `grow_buffer`: the size of the buffer when it must hold so many bytes; a larger one is a new one. */
  function Grown(size: nat, need: nat): (r: nat)
    ensures r >= size && r >= need && (r == size <==> size >= need)
  {
    if size >= need then size
    else ((if need < 2 * size then 2 * size else need) + ALIGNMENT - 1) / ALIGNMENT * ALIGNMENT
  }

  function GrownTo(size: Option<nat>, need: nat): Option<nat> {
    if size.None? then None else Some(Grown(size.value, need))
  }

  /**
   * Does every working line that a pass writes fit, with its terminator, into a line buffer of that size? ms are the
   * matches still to come, shown the number of bytes the working line has in front of line[from..].
   */
  predicate Fits(line: seq<byte>, from: nat, ms: seq<Match>, rhs: seq<byte>, groups: nat, flag: nat, k: nat,
                 shown: nat, size: nat)
    requires Ordered(line, from, ms, groups) && ValidTemplate(rhs, groups)
    decreases |ms|
  {
    ms == [] ||
    var shown' := shown + |Turn(line, from, ms[0], rhs, groups, flag, k + 1)|;
    && (Chosen(flag, k + 1) ==> shown' + (|line| - ms[0].end) < size)
    && Fits(line, ms[0].end, ms[1..], rhs, groups, flag, k + 1, shown', size)
  }

  /** Every line that `s` writes fits. */
  predicate AllFit(e: Expr, line: seq<byte>, rhs: seq<byte>, flag: nat, size: nat)
    requires ValidExpr(e) && ValidTemplate(rhs, Groups(e.prog)) && (flag == 0 || e.circf || Consumes(e.prog))
  {
    MatchesOrdered(e, line, flag);
    Fits(line, 0, Matches(e, line, flag), rhs, Groups(e.prog), flag, 0, 0, size)
  }

  /** The size of the line buffer after `s`; None when a pointer into a line buffer given up has been followed. */
  function SizeAfter(e: Expr, line: seq<byte>, rhs: seq<byte>, flag: nat, size: Option<nat>): Option<nat>
    requires ValidExpr(e) && ValidTemplate(rhs, Groups(e.prog)) && (flag == 0 || e.circf || Consumes(e.prog))
  {
    if size.None? || Matches(e, line, flag) == [] then size
    else if flag == 0 then Some(Grown(size.value, |Substituted(e, line, rhs, flag)| + 1))
    else if AllFit(e, line, rhs, flag, size.value) then size
    else None
  }

  /** The same for the rest of the line, behind the match that ended at c. */
  predicate RestFits(e: Expr, line: seq<byte>, rhs: seq<byte>, flag: nat, c: nat, k: nat, shown: nat, size: nat)
    requires c <= |line| && ValidExpr(e) && ValidTemplate(rhs, Groups(e.prog)) && (e.circf || Consumes(e.prog))
  {
    MatchesFromOrdered(e, line, c);
    Fits(line, c, MatchesFrom(e, line, c), rhs, Groups(e.prog), flag, k, shown, size)
  }

  lemma NextFits(e: Expr, line: seq<byte>, rhs: seq<byte>, flag: nat, c: nat, k: nat, shown: nat, size: nat)
    requires c < |line| && ValidExpr(e) && ValidTemplate(rhs, Groups(e.prog)) && (e.circf || Consumes(e.prog))
    ensures var m := NextMatch(e, line, c);
            if m.NoMatch? then RestFits(e, line, rhs, flag, c, k, shown, size)
            else
              && c <= m.start && m.end <= |line| && MatchOf(m, line, Groups(e.prog))
              && var shown' := shown + |Turn(line, c, m, rhs, Groups(e.prog), flag, k + 1)|;
                 (RestFits(e, line, rhs, flag, c, k, shown, size)
                  <==>
                  && (Chosen(flag, k + 1) ==> shown' + (|line| - m.end) < size)
                  && RestFits(e, line, rhs, flag, m.end, k + 1, shown', size))
  {
    NextIsLater(e, line, c);
    MatchInside(false, e.prog, line, c, Some(c), NO_SPANS);
    MatchesFromOrdered(e, line, c);
    var m := NextMatch(e, line, c);
    if m.Match? {
      var rest := MatchesFrom(e, line, m.end);
      assert ([m] + rest)[1..] == rest;
    }
  }

  lemma FirstFits(e: Expr, line: seq<byte>, rhs: seq<byte>, flag: nat, size: nat)
    requires ValidExpr(e) && ValidTemplate(rhs, Groups(e.prog)) && flag != 0 && (e.circf || Consumes(e.prog))
    requires FirstMatch(e, line).Match?
    ensures var m := FirstMatch(e, line);
            && m.end <= |line| && MatchOf(m, line, Groups(e.prog))
            && var shown := |Turn(line, 0, m, rhs, Groups(e.prog), flag, 1)|;
               (AllFit(e, line, rhs, flag, size)
                <==>
                && (Chosen(flag, 1) ==> shown + (|line| - m.end) < size)
                && RestFits(e, line, rhs, flag, m.end, 1, shown, size))
  {
    MatchInside(e.circf, e.prog, line, 0, None, NO_SPANS);
    MatchesOrdered(e, line, flag);
    assert Matches(e, line, flag)[1..] == MatchesFrom(e, line, FirstMatch(e, line).end);
  }

  lemma NothingMatched(e: Expr, line: seq<byte>, rhs: seq<byte>, flag: nat, size: nat)
    requires ValidExpr(e) && ValidTemplate(rhs, Groups(e.prog)) && (flag == 0 || e.circf || Consumes(e.prog))
    requires FirstMatch(e, line).NoMatch?
    ensures Matches(e, line, flag) == [] && Substituted(e, line, rhs, flag) == line
    ensures AllFit(e, line, rhs, flag, size) && !Replaces(flag, 0)
  {
    assert line[0..] == line;
  }

  // ----- the commands on the buffers -----

  /** The part of the evaluator's state that `s` works on. */
  class Editor {
    var linebuf: seq<byte>
    var lsize: nat
    /** How often the line buffer has been replaced by a larger one, and how often it had been when vars was set. */
    var lgen: nat
    var vgen: nat
    var genbuf: seq<byte>
    var gsize: Size
    var numpass: nat
    var sflag: bool
    const vars: StepVars

    constructor (line: seq<byte>)
      ensures linebuf == line && lsize == INIT_BUF_SIZE && sflag == false && vars.Valid() && fresh(vars)
    {
      linebuf, lsize, lgen, vgen, numpass, sflag := line, INIT_BUF_SIZE, 0, 0, 0, false;
      genbuf, gsize := [], INIT_BUF_SIZE;
      vars := new StepVars();
    }

    /** `grow_line_buffer` */
    method GrowLineBuffer(newsize: nat)
      modifies this`lsize, this`lgen
      ensures lsize == Grown(old(lsize), newsize) && (lgen == old(lgen) <==> newsize <= old(lsize))
    {
      if lsize < newsize {
        lsize := Grown(lsize, newsize);
        lgen := lgen + 1;
      }
    }

    /** `appendmem_to_linebuf` */
    method AppendMem(sz: seq<byte>)
      modifies this`linebuf, this`lsize, this`lgen
      ensures linebuf == old(linebuf) + sz && lsize == Grown(old(lsize), |linebuf|)
    {
      GrowLineBuffer(|linebuf| + |sz|);
      linebuf := linebuf + sz;
    }

    /** `append_to_linebuf` */
    method AppendToLinebuf(sz: seq<byte>)
      modifies this`linebuf, this`lsize, this`lgen
      ensures linebuf == old(linebuf) + sz && lsize == Grown(old(lsize), |linebuf| + 1)
    {
      GrowLineBuffer(|linebuf| + |sz| + 1);
      linebuf := linebuf + sz;
    }

    /** `copy_to_linebuf` */
    method CopyToLinebuf(sz: seq<byte>)
      modifies this`linebuf, this`lsize, this`lgen
      ensures linebuf == sz && lsize == Grown(old(lsize), |sz| + 1) && (lgen == old(lgen) <==> |sz| < old(lsize))
    {
      GrowLineBuffer(|sz| + 1);
      linebuf := sz;
    }

    /** `match`: expbuf is the `^` byte and the code; with gf the search goes on behind the previous match. */
    method Match(expbuf: seq<byte>, gf: bool, ghost e: Expr) returns (ok: bool)
      requires vars.Valid() && NulFree(linebuf) && ValidExpr(e) && expbuf == CodeOf(e)
      requires gf ==> vars.loc2 <= |linebuf| && vgen == lgen
      modifies vars, this`vgen
      ensures vars.Valid() && vgen == lgen
      ensures !gf ==> var m := Step(e.circf, e.prog, linebuf, 0, None, old(vars.Spans()));
                      if m.Match? then ok && m == Stepper.Match(vars.loc1, vars.loc2, vars.Spans()) else !ok
      ensures gf && e.circf ==> !ok
      ensures gf && !e.circf ==>
                var m := Scan(e.prog, linebuf, old(vars.loc2), Some(old(vars.loc2)), old(vars.Spans()));
                                 if m.Match? then ok && m == Stepper.Match(vars.loc1, vars.loc2, vars.Spans()) else !ok
    {
      var p1 := 0;
      if gf {
        if expbuf[0] != 0 {
          return false;
        }
        p1 := vars.loc2;
        vars.locs := Some(p1);
      } else {
        vgen := lgen;
        vars.locs := None;
      }
      assert expbuf[1..] == Encode(e.prog);
      ok := SedStep(linebuf, p1, expbuf, 1, expbuf[0] != 0, vars, e.prog);
    }

    /** `place`: line text is added to the generated line, whose buffer keeps room for a terminator. */
    method Place(al1: nat, al2: nat)
      requires al1 <= al2 <= |linebuf|
      modifies this`genbuf, this`gsize
      ensures genbuf == old(genbuf) + linebuf[al1..al2] && |genbuf| < gsize
    {
      var reqsize := |genbuf| + (al2 - al1) + 1;
      if gsize < reqsize {
        gsize := Grown(gsize, reqsize);
      }
      genbuf := genbuf + linebuf[al1..al2];
    }

    /** `*sp++ = c`, and a larger buffer when that was the last place in it. */
    method PlaceByte(c: byte)
      requires |genbuf| < gsize
      modifies this`genbuf, this`gsize
      ensures genbuf == old(genbuf) + [c] && |genbuf| < gsize
    {
      genbuf := genbuf + [c];
      if |genbuf| >= gsize {
        gsize := Grown(gsize, gsize + MORE);
      }
    }

    /**
     * The loop of `dosub` over the template: the bytes it makes are added to the generated line, which never fills its
     * buffer.
     */
    method ExpandTemplate(rhsbuf: seq<byte>, ghost m: Match, ghost groups: nat)
      requires vars.Valid() && m == Stepper.Match(vars.loc1, vars.loc2, vars.Spans()) && |genbuf| < gsize
      requires MatchOf(m, linebuf, groups) && ValidTemplate(rhsbuf, groups)
      modifies this`genbuf, this`gsize
      ensures genbuf == old(genbuf) + Expand(rhsbuf, linebuf, m, groups) && |genbuf| < gsize
    {
      hide Expand;
      NothingToExpand(linebuf, m, groups);
      var rp := 0;
      ghost var goal := genbuf + Expand(rhsbuf, linebuf, m, groups);
      assert rhsbuf[rp..] == rhsbuf;
      while rp < |rhsbuf|
        invariant rp <= |rhsbuf| && ValidTemplate(rhsbuf[rp..], groups) && |genbuf| < gsize
        invariant genbuf + Expand(rhsbuf[rp..], linebuf, m, groups) == goal
      {
        ghost var before, rest := genbuf, rhsbuf[rp..];
        var c := rhsbuf[rp];
        rp := rp + 1;
        assert rest[1..] == rhsbuf[rp..];
        if c == AMPERSAND {
          Place(vars.loc1, vars.loc2);
        } else if c == BACKSLASH {
          c := rhsbuf[rp];
          rp := rp + 1;
          assert rest[2..] == rhsbuf[rp..];
          if ONE <= c <= NINE {
            Place(vars.braslist[c - ONE], vars.braelist[c - ONE]);
          } else {
            PlaceByte(c);
          }
        } else {
          PlaceByte(c);
        }
        ExpandHead(rest, linebuf, m, groups, before);
      }
      assert rhsbuf[rp..] == [];
    }

    /** `dosub`: replace the current match, unless the flag n asks for another one. */
    method Dosub(rhsbuf: seq<byte>, n: nat, ghost m: Match, ghost groups: nat)
      requires vars.Valid() && m == Stepper.Match(vars.loc1, vars.loc2, vars.Spans())
      requires MatchOf(m, linebuf, groups) && ValidTemplate(rhsbuf, groups) && vgen == lgen
      modifies this, vars`loc2
      ensures vars.Valid() && vgen == old(vgen) && numpass == old(numpass) + (if 0 < n < GLOBAL then 1 else 0)
      ensures if Chosen(n, numpass) then
                var head := old(linebuf)[..m.start] + Expand(rhsbuf, old(linebuf), m, groups);
                && linebuf == head + old(linebuf)[m.end..] && vars.loc2 == |head| && sflag
                && lsize == Grown(old(lsize), |linebuf| + 1) && (vgen == lgen <==> |linebuf| < old(lsize))
              else
                && linebuf == old(linebuf) && vars.loc2 == old(vars.loc2) && sflag == old(sflag)
                && lsize == old(lsize) && vgen == lgen
    {
      hide Expand, ValidTemplate, Inside, Grown;
      if 0 < n < GLOBAL {
        numpass := numpass + 1;
        if n != numpass {
          return;
        }
      }
      ReplaceMatch(rhsbuf, m, groups);
    }

    /** The line is generated anew, with the match replaced. */
    method ReplaceMatch(rhsbuf: seq<byte>, ghost m: Match, ghost groups: nat)
      requires vars.Valid() && m == Stepper.Match(vars.loc1, vars.loc2, vars.Spans())
      requires MatchOf(m, linebuf, groups) && ValidTemplate(rhsbuf, groups) && vgen == lgen
      modifies this, vars`loc2
      ensures vars.Valid() && vgen == old(vgen) && numpass == old(numpass) && sflag
      ensures var head := old(linebuf)[..m.start] + Expand(rhsbuf, old(linebuf), m, groups);
              linebuf == head + old(linebuf)[m.end..] && vars.loc2 == |head|
      ensures lsize == Grown(old(lsize), |linebuf| + 1) && (vgen == lgen <==> |linebuf| < old(lsize))
    {
      hide Expand, ValidTemplate, Inside;
      sflag := true;
      genbuf := [];
      Place(0, vars.loc1);
      ExpandTemplate(rhsbuf, m, groups);
      var lp := vars.loc2;
      vars.loc2 := |genbuf|;
      Place(lp, |linebuf|);
      CopyToLinebuf(genbuf);
    }

    /** `dosub` for the match that is m on the original line, of which line[c..] is still to be scanned. */
    method Pass(rhs: seq<byte>, gfl: nat, ghost done: seq<byte>, ghost line: seq<byte>, ghost c: nat, ghost m: Match,
                ghost groups: nat, ghost k: nat)
      requires vars.Valid() && ValidTemplate(rhs, groups) && NulFree(linebuf) && NulFree(line)
      requires MatchOf(m, line, groups) && c <= m.start && linebuf == done + line[c..]
      requires Corresponds(Stepper.Match(vars.loc1, vars.loc2, vars.Spans()), m, |done|, c, groups)
      requires sflag == Replaces(gfl, k) && (0 < gfl < GLOBAL ==> numpass == k) && vgen == lgen
      modifies this, vars`loc2
      ensures vars.Valid() && NulFree(linebuf)
      ensures if Chosen(gfl, k + 1) then
                lsize == Grown(old(lsize), |linebuf| + 1) && (vgen == lgen <==> |linebuf| < old(lsize))
              else lsize == old(lsize) && vgen == lgen
      ensures sflag == Replaces(gfl, k + 1) && (0 < gfl < GLOBAL ==> numpass == k + 1)
      ensures var done' := done + Turn(line, c, m, rhs, groups, gfl, k + 1);
              linebuf == done' + line[m.end..] && vars.loc2 == |done'|
    {
      ghost var w, m1 := linebuf, Stepper.Match(vars.loc1, vars.loc2, vars.Spans());
      WorkingMatch(rhs, done, line, c, m1, m, groups, gfl, k + 1);
      Dosub(rhs, gfl, m1, groups);
      assert w == w[..m1.end] + w[m1.end..];
    }

    /** `substitute` up to its loop. */
    method FirstPass(re1: seq<byte>, rhs: seq<byte>, gfl: nat, ghost e: Expr) returns (ok: bool)
      requires vars.Valid() && NulFree(linebuf) && ValidExpr(e) && re1 == CodeOf(e)
      requires ValidTemplate(rhs, Groups(e.prog))
      modifies this, vars
      ensures vars.Valid() && NulFree(linebuf) && ok == FirstMatch(e, old(linebuf)).Match?
      ensures !ok ==> linebuf == old(linebuf) && sflag == old(sflag) && lsize == old(lsize)
      ensures ok ==> sflag == Replaces(gfl, 1) && (0 < gfl < GLOBAL ==> numpass == 1)
      ensures ok ==> var line, m := old(linebuf), FirstMatch(e, old(linebuf));
                     && MatchOf(m, line, Groups(e.prog))
                     && var done := Turn(line, 0, m, rhs, Groups(e.prog), gfl, 1);
                        linebuf == done + line[m.end..] && vars.loc2 == |done|
      ensures ok ==>
                if Chosen(gfl, 1) then
                  lsize == Grown(old(lsize), |linebuf| + 1) && (vgen == lgen <==> |linebuf| < old(lsize))
                     else lsize == old(lsize) && vgen == lgen
    {
      hide Scan, WellFormed, Encode, Expand, ValidTemplate;
      ghost var line, groups, none: seq<byte> := linebuf, Groups(e.prog), [];
      FirstCorresponds(e, line, vars.Spans());
      ok := Match(re1, false, e);
      if ok {
        numpass := 0;
        sflag := false;
        ghost var m := FirstMatch(e, line);
        MatchInside(e.circf, e.prog, line, 0, None, NO_SPANS);
        assert linebuf == none + line[0..];
        Pass(rhs, gfl, none, line, 0, m, groups, 0);
        assert none + Turn(line, 0, m, rhs, groups, gfl, 1) == Turn(line, 0, m, rhs, groups, gfl, 1);
      }
    }

    /**
     * `substitute`: flag is 0, a number below 999, or GLOBAL for `g`. It is stale when it follows a pointer into a line
     * buffer that has been given up for a larger one; that happens exactly when a pass that has others behind it makes
     * the line outgrow its buffer. Otherwise the line becomes the gaps, the expanded templates and the tail.
     */
    method Substitute(re1: seq<byte>, rhs: seq<byte>, gfl: nat, ghost e: Expr) returns (done: bool, stale: bool)
      requires vars.Valid() && NulFree(linebuf) && ValidExpr(e) && re1 == CodeOf(e)
      requires ValidTemplate(rhs, Groups(e.prog)) && (gfl == 0 || e.circf || Consumes(e.prog))
      modifies this, vars
      ensures vars.Valid() && NulFree(linebuf)
      ensures stale <==> gfl != 0 && !AllFit(e, old(linebuf), rhs, gfl, old(lsize))
      ensures !stale ==> linebuf == Substituted(e, old(linebuf), rhs, gfl)
      ensures !stale ==> done == Replaces(gfl, |Matches(e, old(linebuf), gfl)|)
      ensures !stale ==> sflag == if Matches(e, old(linebuf), gfl) == [] then old(sflag) else done
      ensures !stale ==> SizeAfter(e, old(linebuf), rhs, gfl, Some(old(lsize))) == Some(lsize)
    {
      hide Substituted, Matches, AllFit, RestFits, Remaining, MatchesFrom, FirstMatch, WellFormed, Encode,
        ValidTemplate, Consumes,
        Turn, MatchOf, Replaces;
      ghost var line, size := linebuf, lsize;
      var ok := FirstPass(re1, rhs, gfl, e);
      if !ok {
        NothingMatched(e, line, rhs, gfl, size);
        return false, false;
      }
      ghost var m := FirstMatch(e, line);
      FirstTurn(e, line, rhs, gfl);
      stale := false;
      if gfl != 0 {
        FirstFits(e, line, rhs, gfl, size);
        stale := PassOn(re1, rhs, gfl, e, Turn(line, 0, m, rhs, Groups(e.prog), gfl, 1), line, m.end, size);
      }
      done := sflag;
    }

    /** Once round the loop of `substitute`, with text behind loc2. */
    method NextPass(re1: seq<byte>, rhs: seq<byte>, gfl: nat, ghost e: Expr, ghost done: seq<byte>,
                    ghost line: seq<byte>, ghost c: nat,
                    ghost k: nat)
      returns (ok: bool)
      requires vars.Valid() && NulFree(linebuf) && NulFree(line) && ValidExpr(e) && re1 == CodeOf(e)
      requires ValidTemplate(rhs, Groups(e.prog)) && gfl != 0 && (e.circf || Consumes(e.prog)) && vgen == lgen
      requires c < |line| && linebuf == done + line[c..] && vars.loc2 == |done|
      requires sflag == Replaces(gfl, k) && (0 < gfl < GLOBAL ==> numpass == k)
      modifies this, vars
      ensures vars.Valid() && NulFree(linebuf) && ok == NextMatch(e, line, c).Match?
      ensures !ok ==> linebuf == old(linebuf) && sflag == old(sflag) && lsize == old(lsize) && vgen == lgen
      ensures ok ==> sflag == Replaces(gfl, k + 1) && (0 < gfl < GLOBAL ==> numpass == k + 1)
      ensures ok ==> var m := NextMatch(e, line, c);
                     && c <= m.start && MatchOf(m, line, Groups(e.prog))
                     && var done' := done + Turn(line, c, m, rhs, Groups(e.prog), gfl, k + 1);
                        linebuf == done' + line[m.end..] && vars.loc2 == |done'|
      ensures ok ==>
                if Chosen(gfl, k + 1) then
                  lsize == Grown(old(lsize), |linebuf| + 1) && (vgen == lgen <==> |linebuf| < old(lsize))
                     else lsize == old(lsize) && vgen == lgen
    {
      hide Scan, WellFormed, Encode, Expand, ValidTemplate, Consumes, Remaining, MatchesFrom, Replaces, Turn, Shifted,
        Settled;
      if !e.circf {
        NextCorresponds(e, done, line, c, vars.Spans());
      }
      ok := Match(re1, true, e);
      if ok {
        ghost var m := NextMatch(e, line, c);
        NextIsLater(e, line, c);
        NextTurn(e, line, rhs, gfl, done, c, k);
        Pass(rhs, gfl, done, line, c, m, Groups(e.prog), k);
      }
    }

    /** The loop of `substitute`: every pass starts where the one before it ended. */
    method PassOn(re1: seq<byte>, rhs: seq<byte>, gfl: nat, ghost e: Expr, ghost done: seq<byte>,
                  ghost line: seq<byte>, ghost c: nat,
                  ghost size: nat)
      returns (stale: bool)
      requires vars.Valid() && NulFree(linebuf) && NulFree(line) && ValidExpr(e) && re1 == CodeOf(e)
      requires ValidTemplate(rhs, Groups(e.prog)) && gfl != 0 && (e.circf || Consumes(e.prog))
      requires c <= |line| && linebuf == done + line[c..] && vars.loc2 == |done|
      requires sflag == Replaces(gfl, 1) && (0 < gfl < GLOBAL ==> numpass == 1)
      requires vgen == lgen ==> lsize == size
      modifies this, vars
      ensures vars.Valid() && NulFree(linebuf)
      ensures stale <==> old(vgen != lgen) || !RestFits(e, line, rhs, gfl, c, 1, |done|, size)
      ensures !stale ==> linebuf == Remaining(e, line, rhs, gfl, done, c, 1) && lsize == size
      ensures !stale ==> sflag == Replaces(gfl, 1 + |MatchesFrom(e, line, c)|)
    {
      hide RestFits, Remaining, MatchesFrom, NextMatch, WellFormed, Encode, Turn, Replaces, MatchOf, ValidTemplate,
        Consumes;
      ghost var done', c', k, groups := done, c, 1, Groups(e.prog);
      ghost var fits := vgen == lgen && RestFits(e, line, rhs, gfl, c, 1, |done|, size);
      while true
        invariant vars.Valid() && NulFree(linebuf) && c' <= |line|
        invariant linebuf == done' + line[c'..] && vars.loc2 == |done'|
        invariant sflag == Replaces(gfl, k) && (0 < gfl < GLOBAL ==> numpass == k)
        invariant k + |MatchesFrom(e, line, c')| == 1 + |MatchesFrom(e, line, c)|
        invariant Remaining(e, line, rhs, gfl, done', c', k) == Remaining(e, line, rhs, gfl, done, c, 1)
        invariant vgen == lgen ==> lsize == size
        invariant fits <==> vgen == lgen && RestFits(e, line, rhs, gfl, c', k, |done'|, size)
        decreases |line| - c'
      {
        if vgen != lgen {
          return true;
        }
        if At(linebuf, vars.loc2) == 0 {
          NoMore(e, line, rhs, gfl, done', c', k, size);
          break;
        }
        NextFits(e, line, rhs, gfl, c', k, |done'|, size);
        var ok := NextPass(re1, rhs, gfl, e, done', line, c', k);
        if !ok {
          NoMore(e, line, rhs, gfl, done', c', k, size);
          break;
        }
        ghost var m := NextMatch(e, line, c');
        NextIsLater(e, line, c');
        NextTurn(e, line, rhs, gfl, done', c', k);
        done', c', k := done' + Turn(line, c', m, rhs, groups, gfl, k + 1), m.end, k + 1;
      }
      stale := false;
    }
  }

  /** Without another match the rest of the line stays as it is. */
  lemma NoMore(e: Expr, line: seq<byte>, rhs: seq<byte>, flag: nat, done: seq<byte>, c: nat, k: nat, size: nat)
    requires c <= |line| && ValidExpr(e) && ValidTemplate(rhs, Groups(e.prog)) && (e.circf || Consumes(e.prog))
    requires c == |line| || NextMatch(e, line, c).NoMatch?
    ensures MatchesFrom(e, line, c) == [] && RestFits(e, line, rhs, flag, c, k, |done|, size)
    ensures Remaining(e, line, rhs, flag, done, c, k) == done + line[c..]
  {
  }
}
