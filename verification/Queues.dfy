/** When the texts that `a` queues are written: at the end of a cycle, before `n` and `N` read a line, and at `q`. */
module Queues {
  import opened Options
  import opened Bytes
  import opened Script
  import opened Evaluation
  import opened PushPull
  import opened Substitution
  import opened Chunks
  import opened Filters
  import opened Idioms
  import opened Suspensions

  // ----- a, s, n, t, d -----

  function Editor(x: seq<byte>, e: Expr, rhs: seq<byte>, gfl: nat, quiet: bool): Script {
    Script([Plain(Append(x)), Plain(Subst(e, rhs, gfl, 0)), Plain(Next), Plain(Test), Plain(Delete)], quiet)
  }

  /** Every other line, edited, and the text behind it. */
  function EveryOther(lines: seq<seq<byte>>, skip: bool, x: seq<byte>, e: Expr, rhs: seq<byte>, gfl: nat, quiet: bool):
    seq<byte>
    requires ValidCommand(Subst(e, rhs, gfl, 0)) && Text(lines)
  {
    if lines == [] then []
    else
      (if skip then [] else Passed(quiet, Substituted(e, lines[0], rhs, gfl)) + (x + [NEWLINE]))
      + EveryOther(lines[1..], !skip, x, e, rhs, gfl, quiet)
  }

  /** Waiting for a line to edit, or for one that `t` and `d` are for. */
  ghost predicate Edits(sc: Script, m: Machine) {
    && ValidMachine(sc, m) && !m.quit && m.s.linebuf == [] && m.s.abuf == []
    && (m.pending.Some? ==> m.pending == Some(3))
  }

  lemma EditorSteps(x: seq<byte>, e: Expr, rhs: seq<byte>, gfl: nat, quiet: bool, s: State)
    requires var sc := Editor(x, e, rhs, gfl, quiet); ValidScript(sc) && ValidState(sc, s)
    ensures ValidCommand(Subst(e, rhs, gfl, 0))
    ensures s.abuf == [] ==> Step(Editor(x, e, rhs, gfl, quiet), s, 0) == (s.(abuf := [x]), Goto(1))
    ensures var (s', t) := Step(Editor(x, e, rhs, gfl, quiet), s, 1);
            && t == Goto(2) && s' == s.(linebuf := s'.linebuf, sflag := s'.sflag, lsize := s'.lsize)
            && s'.linebuf == Substituted(e, s.linebuf, rhs, gfl)
    ensures !s.sflag ==> Step(Editor(x, e, rhs, gfl, quiet), s, 3) == (s, Goto(4))
    ensures Step(Editor(x, e, rhs, gfl, quiet), s, 4) == (s, EndCycle(true))
  {
    hide Step, Substituted, SizeAfter, Substitution.Matches, Replaces;
    var sc := Editor(x, e, rhs, gfl, quiet);
    assert ValidNode(sc.nodes[1], 5);
    Selected(sc, s, 0);
    Selected(sc, s, 1);
    Selected(sc, s, 3);
    Selected(sc, s, 4);
    assert [] + [x] == [x];
  }

  /** `n` with a text queued. */
  lemma NextFlushes(sc: Script, s: State, pc: nat, x: seq<byte>)
    requires ValidScript(sc) && ValidState(sc, s) && pc < |sc.nodes| && sc.nodes[pc] == Plain(Next) && s.abuf == [x]
    ensures var (s', t) := Step(sc, s, pc);
            && t == Suspend(pc + 1) && s'.linebuf == [] && s'.abuf == []
            && s'.out == s.out + (Passed(sc.nflag, s.linebuf) + (x + [NEWLINE]))
  {
    hide Step, WriteAll;
    Selected(sc, s, pc);
    PassedOn(sc, s);
    WriteOne(x);
    Assoc(s.out, Passed(sc.nflag, s.linebuf), x + [NEWLINE]);
  }

  /** The commands for a line to edit. */
  lemma EditorFirst(x: seq<byte>, e: Expr, rhs: seq<byte>, gfl: nat, quiet: bool, s: State, n: nat)
    requires var sc := Editor(x, e, rhs, gfl, quiet); ValidScript(sc) && ValidState(sc, s)
    requires s.abuf == [] && n >= 3
    ensures ValidCommand(Subst(e, rhs, gfl, 0))
    ensures var (s', t) := Loop(Editor(x, e, rhs, gfl, quiet), s, 0, n);
            && t == Suspend(3) && s'.linebuf == [] && s'.abuf == []
            && s'.out == s.out + (Passed(quiet, Substituted(e, s.linebuf, rhs, gfl)) + (x + [NEWLINE]))
  {
    hide Step, Loop, Passed, Substituted, ValidCommand;
    var sc := Editor(x, e, rhs, gfl, quiet);
    EditorSteps(x, e, rhs, gfl, quiet, s);
    Turns(sc, s, 0, n);
    var s1 := Step(sc, s, 0).0;
    EditorSteps(x, e, rhs, gfl, quiet, s1);
    Turns(sc, s1, 1, n - 1);
    var s2 := Step(sc, s1, 1).0;
    NextFlushes(sc, s2, 2, x);
    Turns(sc, s2, 2, n - 2);
  }

  /** The commands for a line behind it. */
  lemma EditorSecond(x: seq<byte>, e: Expr, rhs: seq<byte>, gfl: nat, quiet: bool, s: State, n: nat)
    requires var sc := Editor(x, e, rhs, gfl, quiet); ValidScript(sc) && ValidState(sc, s)
    requires !s.sflag && n >= 2
    ensures Loop(Editor(x, e, rhs, gfl, quiet), s, 3, n) == (s, EndCycle(true))
  {
    hide Step, Loop, Substituted;
    var sc := Editor(x, e, rhs, gfl, quiet);
    EditorSteps(x, e, rhs, gfl, quiet, s);
    Turns(sc, s, 3, n);
    Turns(sc, s, 4, n - 1);
  }

  lemma EditorExecutes(x: seq<byte>, e: Expr, rhs: seq<byte>, gfl: nat, quiet: bool, m: Machine, line: seq<byte>,
                       last: bool, n: nat)
    requires var sc := Editor(x, e, rhs, gfl, quiet); ValidScript(sc) && Edits(sc, m) && NulFree(line) && n >= 3
    ensures ValidCommand(Subst(e, rhs, gfl, 0))
    ensures var sc := Editor(x, e, rhs, gfl, quiet);
            var r := Execute(sc, m, line, last, n);
            && r.Some? && Edits(sc, r.value) && (r.value.pending.Some? <==> m.pending.None?)
            && r.value.s.out
               == m.s.out + if m.pending.Some? then []
                            else Passed(quiet, Substituted(e, line, rhs, gfl)) + (x + [NEWLINE])
  {
    hide Settle, Loop, WriteAll, Passed, Substituted, ValidExpr, ValidTemplate, Editor;
    var sc := Editor(x, e, rhs, gfl, quiet);
    Begun(sc, m, line, last);
    var s := Load(m.s, line, last);
    assert m.s.linebuf + line == line;
    assert sc.nflag == quiet && |sc.nodes| == 5 by {
      EditorNodes(x, e, rhs, gfl, quiet);
    }
    if m.pending.Some? {
      EditorSecond(x, e, rhs, gfl, quiet, s, n);
      Settled(sc, s, true);
      WriteOne([]);
      NothingAdded(s.out, []);
    } else {
      EditorFirst(x, e, rhs, gfl, quiet, s, n);
      Waits(sc, Loop(sc, s, 0, n).0, 3);
    }
    EditorNodes(x, e, rhs, gfl, quiet);
  }

  lemma EditorNodes(x: seq<byte>, e: Expr, rhs: seq<byte>, gfl: nat, quiet: bool)
    ensures var sc := Editor(x, e, rhs, gfl, quiet);
            sc.nflag == quiet && |sc.nodes| == 5 && (ValidScript(sc) ==> ValidCommand(Subst(e, rhs, gfl, 0)))
  {
    var sc := Editor(x, e, rhs, gfl, quiet);
    assert sc.nodes[1] == Plain(Subst(e, rhs, gfl, 0));
  }

  lemma {:induction false} EditorPush(x: seq<byte>, e: Expr, rhs: seq<byte>, gfl: nat, quiet: bool, m: Machine,
                                      lines: seq<seq<byte>>, n: nat)
    requires ValidCommand(Subst(e, rhs, gfl, 0)) && Text(lines) && n >= 3
    requires var sc := Editor(x, e, rhs, gfl, quiet); ValidScript(sc) && Edits(sc, m)
    ensures var r := Push(Editor(x, e, rhs, gfl, quiet), m, lines, true, n);
            r.Some? && r.value.s.out == m.s.out + EveryOther(lines, m.pending.Some?, x, e, rhs, gfl, quiet)
    decreases |lines|
  {
    hide Execute, Push, Passed, Substituted, ValidExpr, ValidTemplate, Editor;
    var sc := Editor(x, e, rhs, gfl, quiet);
    PushFirst(sc, m, lines, n);
    if lines != [] {
      EditorExecutes(x, e, rhs, gfl, quiet, m, lines[0], |lines| == 1, n);
      var m' := Execute(sc, m, lines[0], |lines| == 1, n).value;
      EditorPush(x, e, rhs, gfl, quiet, m', lines[1..], n);
      Assoc(m.s.out,
            if m.pending.Some? then [] else Passed(quiet, Substituted(e, lines[0], rhs, gfl)) + (x + [NEWLINE]),
            EveryOther(lines[1..], m.pending.None?, x, e, rhs, gfl, quiet));
    } else {
      NothingAdded(m.s.out, []);
    }
  }

  /**
   * `a`, `s`, `n`, `t` and `d`: the first of every two lines is edited and written when `n` asks for the second, unless
   * under `-n`, and the text queued before is written behind it. The second is deleted: for `t`, nothing has been
   * replaced since it was read.
   */
  lemma EditsEveryOther(x: seq<byte>, e: Expr, rhs: seq<byte>, gfl: nat, quiet: bool, text: seq<byte>, n: nat)
    requires NulFree(x) && ValidCommand(Subst(e, rhs, gfl, 0)) && NulFree(text) && n >= 3
    ensures ValidScript(Editor(x, e, rhs, gfl, quiet)) && Text(Lines(text))
    ensures var r := Pushed(Editor(x, e, rhs, gfl, quiet), text, n);
            r.Some? && r.value.s.out == EveryOther(Lines(text), false, x, e, rhs, gfl, quiet)
  {
    hide Lines, Push, EveryOther, ValidExpr;
    var sc := Editor(x, e, rhs, gfl, quiet);
    LinesNulFree(text);
    EditorPush(x, e, rhs, gfl, quiet, Fresh(sc), Lines(text), n);
  }

  // ----- a and N -----

  function Joiner(x: seq<byte>, quiet: bool): Script {
    Script([Plain(Append(x)), Plain(NextAppend)], quiet)
  }

  /** Every two lines in one, with the text in front; of a last line on its own only the text. */
  function Joined(lines: seq<seq<byte>>, x: seq<byte>, quiet: bool): seq<byte> {
    if lines == [] then []
    else if |lines| == 1 then x + [NEWLINE]
    else x + [NEWLINE] + (Passed(quiet, lines[0] + [NEWLINE] + lines[1]) + Joined(lines[2..], x, quiet))
  }

  /** Waiting for the first of two lines, or for the second. */
  ghost predicate Joins(sc: Script, m: Machine, held: seq<byte>) {
    && ValidMachine(sc, m) && !m.quit && m.s.abuf == []
    && (if m.pending.Some? then m.pending == Some(2) && m.s.linebuf == held + [NEWLINE] else m.s.linebuf == [])
  }

  lemma JoinerSteps(x: seq<byte>, quiet: bool, s: State)
    requires var sc := Joiner(x, quiet); ValidScript(sc) && ValidState(sc, s)
    ensures s.abuf == [] ==> Step(Joiner(x, quiet), s, 0) == (s.(abuf := [x]), Goto(1))
    ensures var (s', t) := Step(Joiner(x, quiet), s, 1);
            s.abuf == [x] ==>
              && t == Suspend(2) && s'.abuf == [] && s'.linebuf == s.linebuf + [NEWLINE]
              && s'.out == s.out + (x + [NEWLINE])
  {
    hide Step, WriteAll;
    var sc := Joiner(x, quiet);
    Selected(sc, s, 0);
    Selected(sc, s, 1);
    assert [] + [x] == [x];
    WriteOne(x);
  }

  lemma JoinerExecutes(x: seq<byte>, quiet: bool, m: Machine, held: seq<byte>, line: seq<byte>, last: bool, n: nat)
    requires var sc := Joiner(x, quiet); ValidScript(sc) && Joins(sc, m, held) && NulFree(line) && n >= 2
    ensures var r := Execute(Joiner(x, quiet), m, line, last, n);
            && r.Some? && Joins(Joiner(x, quiet), r.value, line) && (r.value.pending.Some? <==> m.pending.None?)
            && r.value.s.out
               == m.s.out + if m.pending.Some? then Passed(quiet, held + [NEWLINE] + line) else x + [NEWLINE]
  {
    hide Step, Settle, Loop, WriteAll, Passed;
    var sc := Joiner(x, quiet);
    Begun(sc, m, line, last);
    var s := Load(m.s, line, last);
    if m.pending.Some? {
      LoopEnds(sc, s, n);
      Settled(sc, s, false);
      WriteOne([]);
      NothingAdded(s.out, Passed(quiet, s.linebuf));
    } else {
      assert [] + line == line;
      JoinerSteps(x, quiet, s);
      Turns(sc, s, 0, n);
      var s1 := Step(sc, s, 0).0;
      JoinerSteps(x, quiet, s1);
      Turns(sc, s1, 1, n - 1);
      Waits(sc, Step(sc, s1, 1).0, 2);
    }
  }

  lemma {:induction false} JoinerPush(x: seq<byte>, quiet: bool, m: Machine, lines: seq<seq<byte>>, n: nat)
    requires var sc := Joiner(x, quiet); ValidScript(sc) && Joins(sc, m, []) && m.pending.None? && Text(lines) && n >= 2
    ensures var r := Push(Joiner(x, quiet), m, lines, true, n);
            r.Some? && r.value.s.out == m.s.out + Joined(lines, x, quiet)
    decreases |lines|
  {
    hide Execute, Push, Passed;
    var sc := Joiner(x, quiet);
    PushFirst(sc, m, lines, n);
    if lines == [] {
      NothingAdded(m.s.out, []);
    } else {
      JoinerExecutes(x, quiet, m, [], lines[0], |lines| == 1, n);
      var m1 := Execute(sc, m, lines[0], |lines| == 1, n).value;
      PushFirst(sc, m1, lines[1..], n);
      if |lines| > 1 {
        var rest := lines[1..];
        assert rest[1..] == lines[2..] && rest[0] == lines[1];
        JoinerExecutes(x, quiet, m1, lines[0], lines[1], |rest| == 1, n);
        JoinerPush(x, quiet, Execute(sc, m1, lines[1], |rest| == 1, n).value, lines[2..], n);
        var both := Passed(quiet, lines[0] + [NEWLINE] + lines[1]);
        Assoc(m.s.out + (x + [NEWLINE]), both, Joined(lines[2..], x, quiet));
        Assoc(m.s.out, x + [NEWLINE], both + Joined(lines[2..], x, quiet));
      }
    }
  }

  /**
   * `a` and `N`: the text queued is written before the second of every two lines is read, and what `N` has joined at
   * the end of the cycle; a last line without a second one is lost.
   */
  lemma JoinsLines(x: seq<byte>, quiet: bool, text: seq<byte>, n: nat)
    requires NulFree(x) && NulFree(text) && n >= 2
    ensures ValidScript(Joiner(x, quiet))
    ensures var r := Pushed(Joiner(x, quiet), text, n);
            r.Some? && r.value.s.out == Joined(Lines(text), x, quiet)
  {
    hide Lines, Push, Joined;
    LinesNulFree(text);
    JoinerPush(x, quiet, Fresh(Joiner(x, quiet)), Lines(text), n);
  }

  // ----- a and q -----

  function Quitter(x: seq<byte>, quiet: bool): Script {
    Script([Plain(Append(x)), Plain(Quit)], quiet)
  }

  lemma QuitterExecutes(x: seq<byte>, quiet: bool, m: Machine, line: seq<byte>, last: bool, n: nat)
    requires ValidScript(Quitter(x, quiet)) && m == Fresh(Quitter(x, quiet)) && NulFree(line) && n >= 2
    ensures var r := Execute(Quitter(x, quiet), m, line, last, n);
            r.Some? && r.value.quit && r.value.s.out == Passed(quiet, line) + (x + [NEWLINE])
  {
    hide Step, Settle, Loop, WriteAll, Passed;
    var sc := Quitter(x, quiet);
    Begun(sc, m, line, last);
    var s := Load(m.s, line, last);
    assert [] + line == line && [] + [x] == [x];
    Selected(sc, s, 0);
    Turns(sc, s, 0, n);
    var s1 := Step(sc, s, 0).0;
    Selected(sc, s1, 1);
    Turns(sc, s1, 1, n - 1);
    PassedOn(sc, s1);
    WriteOne(x);
    Waits(sc, Step(sc, s1, 1).0, 0);
    NothingBefore(Passed(quiet, line), x + [NEWLINE]);
  }

  lemma NothingBefore(a: seq<byte>, b: seq<byte>)
    ensures [] + a + b == a + b
  {
  }

  /** `a` and `q`: the first line, unless under `-n`, then the text queued, and nothing more. */
  lemma QuitsBehind(x: seq<byte>, quiet: bool, text: seq<byte>, n: nat)
    requires NulFree(x) && NulFree(text) && text != [] && n >= 2
    ensures ValidScript(Quitter(x, quiet)) && Lines(text) != []
    ensures var r := Pushed(Quitter(x, quiet), text, n);
            r.Some? && r.value.s.out == Passed(quiet, Lines(text)[0]) + (x + [NEWLINE])
  {
    hide Execute, Push, Passed, Ahead, Held;
    var sc, lines := Quitter(x, quiet), Lines(text);
    LinesNulFree(text);
    LinesOnce(text);
    PushFirst(sc, Fresh(sc), lines, n);
    QuitterExecutes(x, quiet, Fresh(sc), lines[0], |lines| == 1, n);
    PushQuits(sc, Execute(sc, Fresh(sc), lines[0], |lines| == 1, n).value, lines[1..], n);
  }
}
