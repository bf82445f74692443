/** Well-known scripts of several commands: what they write for every text. */
module Idioms {
  import opened Options
  import opened Bytes
  import opened Script
  import opened Evaluation
  import opened PushPull
  import opened Substitution
  import opened Chunks
  import opened Filters

  function Plain(c: Command): Node {
    OneNode(c, None, false)
  }

  // ----- what is written when only the last line is -----

  ghost predicate OnlyLast(w: Writer) {
    forall done: seq<seq<byte>> :: w(done, false) == []
  }

  lemma {:induction false} EachLast(w: Writer, lines: seq<seq<byte>>, k: nat)
    requires OnlyLast(w) && k <= |lines|
    ensures Each(w, lines, k) == if k == |lines| then [] else w(lines, true)
    decreases |lines| - k
  {
    if k < |lines| {
      EachLast(w, lines, k + 1);
      assert k + 1 == |lines| ==> lines[..k + 1] == lines;
    }
  }

  // ----- the lines backwards: 1!G;h;$!d -----

  const REVERSE: Script :=
    Script([OneNode(GetAppend, Some(Line(1)), true), Plain(Hold), OneNode(Delete, Some(Last), true)], false)

  /** The lines, each with a newline, the last one first. */
  function Backwards(lines: seq<seq<byte>>): seq<byte> {
    if lines == [] then [] else lines[|lines| - 1] + [NEWLINE] + Backwards(lines[..|lines| - 1])
  }

  /** What the script has made of the line when it comes to `h`. */
  function Gathered(m: Machine, done: seq<seq<byte>>): seq<byte> {
    if |done| == 1 then Current(done) else Current(done) + [NEWLINE] + m.s.holdbuf
  }

  lemma ReverseSteps(s: State)
    requires ValidScript(REVERSE) && ValidState(REVERSE, s)
    ensures Step(REVERSE, s, 0)
            == (if s.lnum == 1 then s else AppendLine(AppendLine(s, [NEWLINE]), s.holdbuf), Goto(1))
    ensures Step(REVERSE, s, 1) == (s.(holdbuf := s.linebuf), Goto(2))
    ensures Step(REVERSE, s, 2) == (s, if s.dolflag then Goto(3) else EndCycle(true))
  {
    hide Step, AppendLine;
    Selected(REVERSE, s, 0);
    Selected(REVERSE, s, 1);
    Selected(REVERSE, s, 2);
  }

  /** The three commands. */
  lemma ReverseLoop(s: State, n: nat)
    requires ValidScript(REVERSE) && ValidState(REVERSE, s) && n >= 3
    ensures var s1 := if s.lnum == 1 then s else AppendLine(AppendLine(s, [NEWLINE]), s.holdbuf);
            var s2 := s1.(holdbuf := s1.linebuf);
            ValidState(REVERSE, s2) && Loop(REVERSE, s, 0, n) == (s2, EndCycle(!s.dolflag))
  {
    hide Step, Loop, GrownTo;
    ReverseSteps(s);
    Turns(REVERSE, s, 0, n);
    var s1 := Step(REVERSE, s, 0).0;
    ReverseSteps(s1);
    Turns(REVERSE, s1, 1, n - 1);
    var s2 := Step(REVERSE, s1, 1).0;
    ReverseSteps(s2);
    Turns(REVERSE, s2, 2, n - 2);
    LoopEnds(REVERSE, s2, n - 3);
  }

  /** The script on one line. */
  lemma ReverseExecutes(m: Machine, done: seq<seq<byte>>, last: bool, n: nat)
    requires Proper(done) && done != [] && ValidScript(REVERSE) && Between(REVERSE, m, done[..|done| - 1]) && n >= 3
    ensures NulFree(Current(done))
    ensures var r := Execute(REVERSE, m, Current(done), last, n);
            && r.Some? && Between(REVERSE, r.value, done) && r.value.s.holdbuf == Gathered(m, done)
            && r.value.s.out == m.s.out + if last then Gathered(m, done) + [NEWLINE] else []
  {
    hide Settle, Loop, Load, WriteAll, Passed, GrownTo;
    Loaded(REVERSE, m, done, last);
    var s := Load(m.s, Current(done), last);
    ReverseLoop(s, n);
    var s2 := Loop(REVERSE, s, 0, n).0;
    Settled(REVERSE, s2, !last);
    WriteOne([]);
    NothingAdded(s.out, Passed(false, s2.linebuf));
    PassedIs(s2.linebuf);
  }

  lemma NothingAdded(out: seq<byte>, passed: seq<byte>)
    ensures out + passed + [] == out + passed && out + [] == out
  {
  }

  lemma PassedIs(line: seq<byte>)
    ensures Passed(false, line) == line + [NEWLINE] && Passed(true, line) == []
  {
  }

  /** `1!G;h;$!d` writes the lines of every text in reverse. */
  lemma ReversesLines(text: seq<byte>, n: nat)
    requires NulFree(text) && n >= 3
    ensures ValidScript(REVERSE)
    ensures var r := Pushed(REVERSE, text, n); r.Some? && r.value.s.out == Backwards(Lines(text))
  {
    hide Lines, Each, Backwards, Execute;
    var w: Writer := (done, last) => if last then Backwards(done) else [];
    var inv: (Machine, seq<seq<byte>>) -> bool :=
      (m: Machine, done: seq<seq<byte>>) => done == [] || m.s.holdbuf + [NEWLINE] == Backwards(done);
    forall m: Machine, done: seq<seq<byte>>, last: bool
      | Proper(done) && done != [] && Between(REVERSE, m, done[..|done| - 1]) && inv(m, done[..|done| - 1])
      ensures WritesLine(REVERSE, n, inv, w, m, done, last)
    {
      ReverseExecutes(m, done, last, n);
      GatheredBackwards(m, done);
    }
    FilterText(REVERSE, n, inv, w, text);
    EachLast(w, Lines(text), 0);
    NothingBackwards();
  }

  lemma NothingBackwards()
    ensures Backwards([]) == []
  {
  }

  lemma GatheredBackwards(m: Machine, done: seq<seq<byte>>)
    requires done != []
    requires |done| > 1 ==> m.s.holdbuf + [NEWLINE] == Backwards(done[..|done| - 1])
    ensures Gathered(m, done) + [NEWLINE] == Backwards(done)
  {
    if |done| == 1 {
      assert done[..0] == [];
    } else {
      Assoc(Current(done) + [NEWLINE], m.s.holdbuf, [NEWLINE]);
    }
  }

  // ----- all lines at the end: H;$!d;g -----

  const COLLECT: Script := Script([Plain(HoldAppend), OneNode(Delete, Some(Last), true), Plain(Get)], false)

  lemma CollectExecutes(m: Machine, done: seq<seq<byte>>, last: bool, n: nat)
    requires Proper(done) && done != [] && ValidScript(COLLECT) && Between(COLLECT, m, done[..|done| - 1]) && n >= 3
    ensures NulFree(Current(done))
    ensures var r, hold := Execute(COLLECT, m, Current(done), last, n), m.s.holdbuf + [NEWLINE] + Current(done);
            && r.Some? && Between(COLLECT, r.value, done) && r.value.s.holdbuf == hold
            && r.value.s.out == m.s.out + if last then hold + [NEWLINE] else []
  {
    hide Step, Settle, Loop, Load, WriteAll, Passed;
    Loaded(COLLECT, m, done, last);
    var s := Load(m.s, Current(done), last);
    Turns(COLLECT, s, 0, n);
    Selected(COLLECT, s, 0);
    var s1 := Step(COLLECT, s, 0).0;
    Turns(COLLECT, s1, 1, n - 1);
    Selected(COLLECT, s1, 1);
    WriteOne([]);
    PassedIs(s1.holdbuf);
    if last {
      Turns(COLLECT, s1, 2, n - 2);
      Selected(COLLECT, s1, 2);
      var s2 := Step(COLLECT, s1, 2).0;
      LoopEnds(COLLECT, s2, n - 3);
      Settled(COLLECT, s2, false);
      assert s.out + Passed(false, s1.holdbuf) + [] == s.out + Passed(false, s1.holdbuf);
    } else {
      Settled(COLLECT, s1, true);
      assert s.out + [] + [] == s.out + [];
    }
  }

  /** `H;$!d;g` collects the lines in the hold buffer, each behind a newline, and writes them at the end. */
  lemma CollectsLines(text: seq<byte>, n: nat)
    requires NulFree(text) && n >= 3
    ensures ValidScript(COLLECT)
    ensures var r := Pushed(COLLECT, text, n);
            r.Some? && r.value.s.out == if text == [] then [] else [NEWLINE] + Closed(text)
  {
    hide Lines, Each, Closed, Unlines, Execute, Proper;
    var w: Writer := (done, last) => if last then [NEWLINE] + Unlines(done) else [];
    var inv: (Machine, seq<seq<byte>>) -> bool :=
      (m: Machine, done: seq<seq<byte>>) => m.s.holdbuf + [NEWLINE] == [NEWLINE] + Unlines(done);
    forall m: Machine, done: seq<seq<byte>>, last: bool
      | Proper(done) && done != [] && Between(COLLECT, m, done[..|done| - 1]) && inv(m, done[..|done| - 1])
      ensures Text(done) && WritesLine(COLLECT, n, inv, w, m, done, last)
    {
      ProperText(done);
      CollectExecutes(m, done, last, n);
      UnlinesSnoc(done);
      Assoc(m.s.holdbuf + [NEWLINE], Current(done), [NEWLINE]);
      Assoc([NEWLINE], Unlines(done[..|done| - 1]), Current(done) + [NEWLINE]);
    }
    NothingUnlined();
    FilterText(COLLECT, n, inv, w, text);
    EachLast(w, Lines(text), 0);
    TextIsLines(text);
    LinesOnce(text);
  }

  lemma ProperText(lines: seq<seq<byte>>)
    requires Proper(lines)
    ensures Text(lines)
  {
  }

  lemma NothingUnlined()
    ensures Unlines([]) == []
  {
  }

  lemma {:induction false} UnlinesSnoc(lines: seq<seq<byte>>)
    requires lines != []
    ensures Unlines(lines) == Unlines(lines[..|lines| - 1]) + (Current(lines) + [NEWLINE])
    decreases |lines|
  {
    hide Unlines;
    var front, tail := lines[..|lines| - 1], lines[1..];
    UnlinesOnce(lines);
    UnlinesOnce(front);
    if |lines| > 1 {
      UnlinesSnoc(tail);
      FrontTail(lines);
      Assoc(lines[0] + [NEWLINE], Unlines(tail[..|tail| - 1]), Current(lines) + [NEWLINE]);
    } else {
      NothingUnlined();
      assert tail == [];
      assert lines[0] + [NEWLINE] + [] == [] + (lines[0] + [NEWLINE]);
    }
  }

  lemma FrontTail(lines: seq<seq<byte>>)
    requires |lines| > 1
    ensures var front, tail := lines[..|lines| - 1], lines[1..];
            front != [] && front[0] == lines[0] && tail[..|tail| - 1] == front[1..] && Current(tail) == Current(lines)
  {
  }

  lemma UnlinesOnce(lines: seq<seq<byte>>)
    ensures Unlines(lines) == if lines == [] then [] else lines[0] + [NEWLINE] + Unlines(lines[1..])
  {
  }

  // ----- branches: selected lines are kept, or edited ones -----

  function Keep(ad: Option<Address>, neg: bool, quiet: bool): Script {
    Script([OneNode(Branch, ad, neg), Plain(Delete)], quiet)
  }

  lemma KeepExecutes(ad: Option<Address>, neg: bool, quiet: bool, m: Machine, done: seq<seq<byte>>, last: bool, n: nat)
    requires var sc := Keep(ad, neg, quiet);
             Proper(done) && done != [] && ValidScript(sc) && Between(sc, m, done[..|done| - 1]) && n >= 2
    ensures NulFree(Current(done))
    ensures var sc, line := Keep(ad, neg, quiet), Current(done);
            var r := Execute(sc, m, line, last, n);
            && r.Some? && Between(sc, r.value, done)
            && r.value.s.out == m.s.out + if Selects(ad, neg, line, |done|, last) then Passed(quiet, line) else []
  {
    hide Step, Settle, Loop, Load, WriteAll, Passed, Selects;
    var sc := Keep(ad, neg, quiet);
    Loaded(sc, m, done, last);
    var s := Load(m.s, Current(done), last);
    Turns(sc, s, 0, n);
    Selected(sc, s, 0);
    WriteOne([]);
    NothingAdded(s.out, Passed(quiet, s.linebuf));
    if Selects(ad, neg, s.linebuf, s.lnum, last) {
      Settled(sc, s, false);
    } else {
      Turns(sc, s, 1, n - 1);
      Selected(sc, s, 1);
      SelectsAll(s.linebuf, s.lnum, last);
      Settled(sc, s, true);
    }
  }

  lemma SelectsAll(line: seq<byte>, number: nat, last: bool)
    ensures Selects(None, false, line, number, last)
  {
  }

  /** A branch to the end in front of `d` keeps exactly the lines that it is executed on. */
  lemma KeepsSelected(ad: Option<Address>, neg: bool, quiet: bool, text: seq<byte>, n: nat)
    requires (ad.Some? ==> ValidAddress(ad.value)) && NulFree(text) && n >= 2
    ensures ValidScript(Keep(ad, neg, quiet))
    ensures var w: Writer := (done, last) =>
              if Selects(ad, neg, Current(done), |done|, last) then Passed(quiet, Current(done)) else [];
            var r := Pushed(Keep(ad, neg, quiet), text, n);
            r.Some? && r.value.s.out == Each(w, Lines(text), 0)
  {
    hide Lines, Each, Execute, Selects, Passed, ValidAddress;
    var sc := Keep(ad, neg, quiet);
    var w: Writer :=
      (done, last) => if Selects(ad, neg, Current(done), |done|, last) then Passed(quiet, Current(done)) else [];
    var any: (Machine, seq<seq<byte>>) -> bool := (m, done) => true;
    forall m: Machine, done: seq<seq<byte>>, last: bool
      | Proper(done) && done != [] && Between(sc, m, done[..|done| - 1])
      ensures WritesLine(sc, n, any, w, m, done, last)
    {
      KeepExecutes(ad, neg, quiet, m, done, last, n);
    }
    FilterText(sc, n, any, w, text);
  }

  function Edit(e: Expr, rhs: seq<byte>, gfl: nat): Script {
    Script([Plain(Subst(e, rhs, gfl, 0)), Plain(Test), Plain(Delete)], false)
  }

  lemma EditSteps(e: Expr, rhs: seq<byte>, gfl: nat, s: State)
    requires ValidScript(Edit(e, rhs, gfl)) && ValidState(Edit(e, rhs, gfl), s)
    ensures ValidCommand(Subst(e, rhs, gfl, 0))
    ensures var (s', t) := Step(Edit(e, rhs, gfl), s, 0);
            && t == Goto(1) && s' == s.(linebuf := s'.linebuf, sflag := s'.sflag, lsize := s'.lsize)
            && s'.linebuf == Substituted(e, s.linebuf, rhs, gfl)
            && (!s.sflag ==> s'.sflag == Replaces(gfl, |Substitution.Matches(e, s.linebuf, gfl)|))
    ensures Step(Edit(e, rhs, gfl), s, 1) == if s.sflag then (s.(sflag := false), EndCycle(false)) else (s, Goto(2))
    ensures Step(Edit(e, rhs, gfl), s, 2) == (s, EndCycle(true))
  {
    hide Step, Substituted, SizeAfter, Substitution.Matches;
    var sc := Edit(e, rhs, gfl);
    assert ValidNode(sc.nodes[0], 3);
    Selected(sc, s, 0);
    Selected(sc, s, 1);
    Selected(sc, s, 2);
  }

  lemma EditExecutes(e: Expr, rhs: seq<byte>, gfl: nat, m: Machine, done: seq<seq<byte>>, last: bool, n: nat)
    requires ValidCommand(Subst(e, rhs, gfl, 0))
    requires var sc := Edit(e, rhs, gfl);
             Proper(done) && done != [] && ValidScript(sc) && Between(sc, m, done[..|done| - 1]) && n >= 3
    ensures NulFree(Current(done))
    ensures var sc, line := Edit(e, rhs, gfl), Current(done);
            var r := Execute(sc, m, line, last, n);
            && r.Some? && Between(sc, r.value, done)
            && r.value.s.out == m.s.out + if Replaces(gfl, |Substitution.Matches(e, line, gfl)|)
                                          then Substituted(e, line, rhs, gfl) + [NEWLINE] else []
  {
    hide Step, Act, Settle, Loop, Load, WriteAll, Passed, Substituted, Substitution.Matches, Replaces;
    var sc := Edit(e, rhs, gfl);
    Loaded(sc, m, done, last);
    var s := Load(m.s, Current(done), last);
    EditSteps(e, rhs, gfl, s);
    Turns(sc, s, 0, n);
    var s1 := Step(sc, s, 0).0;
    EditSteps(e, rhs, gfl, s1);
    Turns(sc, s1, 1, n - 1);
    var s2 := Step(sc, s1, 1).0;
    WriteOne([]);
    NothingAdded(s.out, Passed(false, s1.linebuf));
    PassedIs(s1.linebuf);
    if s1.sflag {
      Settled(sc, s2, false);
    } else {
      EditSteps(e, rhs, gfl, s2);
      Turns(sc, s2, 2, n - 2);
      Settled(sc, s2, true);
    }
  }

  /** `s` with `t` and `d` behind it writes exactly the lines in which something has been replaced. */
  lemma EditedLines(e: Expr, rhs: seq<byte>, gfl: nat, text: seq<byte>, n: nat)
    requires ValidCommand(Subst(e, rhs, gfl, 0)) && NulFree(text) && n >= 3
    ensures ValidScript(Edit(e, rhs, gfl))
    ensures var w: Writer :=
              (done, last) =>
                if Replaces(gfl, |Substitution.Matches(e, Current(done), gfl)|)
                then Substituted(e, Current(done), rhs, gfl) + [NEWLINE] else [];
            var r := Pushed(Edit(e, rhs, gfl), text, n);
            r.Some? && r.value.s.out == Each(w, Lines(text), 0)
  {
    hide Lines, Each, Execute, Substituted, Replaces, Substitution.Matches;
    var sc := Edit(e, rhs, gfl);
    var w: Writer :=
      (done, last) =>
        if Replaces(gfl, |Substitution.Matches(e, Current(done), gfl)|)
        then Substituted(e, Current(done), rhs, gfl) + [NEWLINE] else [];
    var any: (Machine, seq<seq<byte>>) -> bool := (m, done) => true;
    forall m: Machine, done: seq<seq<byte>>, last: bool
      | Proper(done) && done != [] && Between(sc, m, done[..|done| - 1])
      ensures WritesLine(sc, n, any, w, m, done, last)
    {
      EditExecutes(e, rhs, gfl, m, done, last, n);
    }
    FilterText(sc, n, any, w, text);
  }

  // ----- the order of queued texts -----

  function Twice(x: seq<byte>, y: seq<byte>): Script {
    Script([Plain(Append(x)), Plain(Append(y))], false)
  }

  lemma TwiceExecutes(x: seq<byte>, y: seq<byte>, m: Machine, done: seq<seq<byte>>, last: bool, n: nat)
    requires var sc := Twice(x, y);
             Proper(done) && done != [] && ValidScript(sc) && Between(sc, m, done[..|done| - 1]) && n >= 2
    ensures NulFree(Current(done))
    ensures var sc := Twice(x, y);
            var r := Execute(sc, m, Current(done), last, n);
            && r.Some? && Between(sc, r.value, done)
            && r.value.s.out == m.s.out + (Current(done) + [NEWLINE] + (x + [NEWLINE] + (y + [NEWLINE])))
  {
    hide Step, Settle, Loop, Load, WriteAll, Passed;
    var sc := Twice(x, y);
    Loaded(sc, m, done, last);
    var s := Load(m.s, Current(done), last);
    Turns(sc, s, 0, n);
    Selected(sc, s, 0);
    var s1 := Step(sc, s, 0).0;
    Turns(sc, s1, 1, n - 1);
    Selected(sc, s1, 1);
    var s2 := Step(sc, s1, 1).0;
    LoopEnds(sc, s2, n - 2);
    Settled(sc, s2, false);
    WriteTwo(x, y);
    assert [] + [x] + [y] == [x, y];
    PassedIs(s.linebuf);
    Assoc(s.out, Current(done) + [NEWLINE], x + [NEWLINE] + (y + [NEWLINE]));
  }

  lemma WriteTwo(x: seq<byte>, y: seq<byte>)
    ensures WriteAll([x, y]) == x + [NEWLINE] + (y + [NEWLINE])
  {
    WriteOne(y);
    assert [x, y][1..] == [y];
  }

  /** Texts that `a` queues follow their line in the order in which they were queued. */
  lemma AppendsInOrder(x: seq<byte>, y: seq<byte>, text: seq<byte>, n: nat)
    requires NulFree(x) && NulFree(y) && NulFree(text) && n >= 2
    ensures ValidScript(Twice(x, y))
    ensures var w: Writer := (done, last) => Current(done) + [NEWLINE] + (x + [NEWLINE] + (y + [NEWLINE]));
            var r := Pushed(Twice(x, y), text, n);
            r.Some? && r.value.s.out == Each(w, Lines(text), 0)
  {
    hide Lines, Each, Execute;
    var sc := Twice(x, y);
    var w: Writer := (done, last) => Current(done) + [NEWLINE] + (x + [NEWLINE] + (y + [NEWLINE]));
    var any: (Machine, seq<seq<byte>>) -> bool := (m, done) => true;
    forall m: Machine, done: seq<seq<byte>>, last: bool
      | Proper(done) && done != [] && Between(sc, m, done[..|done| - 1])
      ensures WritesLine(sc, n, any, w, m, done, last)
    {
      TwiceExecutes(x, y, m, done, last, n);
    }
    FilterText(sc, n, any, w, text);
  }
}
