/** Scripts that wait for the next line, or stop: what they write for every text. */
module Suspensions {
  import opened Options
  import opened Bytes
  import opened Script
  import opened Evaluation
  import opened PushPull
  import opened Substitution
  import opened Chunks
  import opened Filters
  import opened Idioms

  /** One line pushed, of some. */
  lemma PushFirst(sc: Script, m: Machine, lines: seq<seq<byte>>, n: nat)
    requires ValidScript(sc) && ValidMachine(sc, m) && Text(lines)
    ensures Push(sc, m, lines, true, n)
            == if lines == [] || m.quit then Some(m)
               else
                 var r := Execute(sc, m, lines[0], |lines| == 1, n);
                 if r.None? then None else Push(sc, r.value, lines[1..], true, n)
  {
  }

  /** Where a line pushed is begun. */
  lemma Begun(sc: Script, m: Machine, line: seq<byte>, last: bool)
    requires ValidScript(sc) && ValidMachine(sc, m) && NulFree(line)
    ensures var s := Load(m.s, line, last);
            && ValidState(sc, s) && s.linebuf == m.s.linebuf + line && s.abuf == m.s.abuf && s.dolflag == last
            && s.lnum == m.s.lnum + 1 && s.out == m.s.out && Start(m) <= |sc.nodes|
  {
  }

  // ----- every other line: n;d -----

  const ALTERNATE: Script := Script([Plain(Next), Plain(Delete)], false)

  /** The lines that are not skipped, each with a newline: every other one. */
  function Alternating(lines: seq<seq<byte>>, skip: bool): seq<byte> {
    if lines == [] then []
    else (if skip then [] else lines[0] + [NEWLINE]) + Alternating(lines[1..], !skip)
  }

  /** Waiting for a line that goes through both commands, or only through the second. */
  ghost predicate Alternates(m: Machine) {
    && ValidMachine(ALTERNATE, m) && !m.quit && m.s.linebuf == [] && m.s.abuf == []
    && (m.pending.Some? ==> m.pending == Some(1))
  }

  lemma AlternateSteps(s: State)
    requires ValidScript(ALTERNATE) && ValidState(ALTERNATE, s) && s.abuf == []
    ensures var (s', t) := Step(ALTERNATE, s, 0);
            t == Suspend(1) && s' == s.(out := s.out + s.linebuf + [NEWLINE], linebuf := [])
    ensures Step(ALTERNATE, s, 1) == (s, EndCycle(true))
  {
    hide Step;
    Selected(ALTERNATE, s, 0);
    Selected(ALTERNATE, s, 1);
    WriteOne([]);
    assert s.out + s.linebuf + [NEWLINE] + [] == s.out + s.linebuf + [NEWLINE];
  }

  lemma AlternateExecutes(m: Machine, line: seq<byte>, last: bool, n: nat)
    requires ValidScript(ALTERNATE) && Alternates(m) && NulFree(line) && n > 0
    ensures var r := Execute(ALTERNATE, m, line, last, n);
            && r.Some? && Alternates(r.value) && (r.value.pending.Some? <==> m.pending.None?)
            && r.value.s.out == m.s.out + if m.pending.Some? then [] else line + [NEWLINE]
  {
    hide Step, Act, Settle, Loop, Load, WriteAll;
    Begun(ALTERNATE, m, line, last);
    var s := Load(m.s, line, last);
    assert m.s.linebuf + line == line;
    AlternateSteps(s);
    Turns(ALTERNATE, s, Start(m), n);
    var (s', t) := Step(ALTERNATE, s, Start(m));
    Assoc(s.out, line, [NEWLINE]);
    if m.pending.Some? {
      Settled(ALTERNATE, s', true);
      WriteOne([]);
      NothingAdded(s.out, []);
    } else {
      Waits(ALTERNATE, s', 1);
    }
  }

  lemma Waits(sc: Script, s: State, next: nat)
    ensures Settle(sc, s, Suspend(next)) == Machine(s, Some(next), false)
    ensures Settle(sc, s, Halt) == Machine(s, None, true)
  {
  }

  lemma {:induction false} AlternatePush(m: Machine, lines: seq<seq<byte>>, n: nat)
    requires ValidScript(ALTERNATE) && Alternates(m) && Text(lines) && n > 0
    ensures var r := Push(ALTERNATE, m, lines, true, n);
            r.Some? && r.value.s.out == m.s.out + Alternating(lines, m.pending.Some?)
    decreases |lines|
  {
    hide Execute, Push;
    PushFirst(ALTERNATE, m, lines, n);
    if lines != [] {
      AlternateExecutes(m, lines[0], |lines| == 1, n);
      var m' := Execute(ALTERNATE, m, lines[0], |lines| == 1, n).value;
      AlternatePush(m', lines[1..], n);
      Assoc(m.s.out, if m.pending.Some? then [] else lines[0] + [NEWLINE], Alternating(lines[1..], m.pending.None?));
    }
  }

  /** `n;d` writes the first of every two lines. */
  lemma EveryOtherLine(text: seq<byte>, n: nat)
    requires NulFree(text) && n > 0
    ensures ValidScript(ALTERNATE)
    ensures var r := Pushed(ALTERNATE, text, n); r.Some? && r.value.s.out == Alternating(Lines(text), false)
  {
    hide Lines, Push;
    LinesNulFree(text);
    AlternatePush(Fresh(ALTERNATE), Lines(text), n);
  }

  // ----- two lines at a time: $!N;P;D -----

  const ROLL: Script :=
    Script([OneNode(NextAppend, Some(Last), true), Plain(PrintFirst), Plain(DeleteFirst)], false)

  /** At the start, or with the latest line still in the buffer, and its newline behind it. */
  ghost predicate Rolls(m: Machine, held: seq<byte>) {
    && ValidMachine(ROLL, m) && !m.quit && m.s.abuf == []
    && (if m.pending.Some? then m.pending == Some(1) && NEWLINE !in held && m.s.linebuf == held + [NEWLINE]
        else held == [] && m.s.linebuf == [])
  }

  /** What a line still in the buffer adds. */
  function Kept(m: Machine, held: seq<byte>): seq<byte> {
    if m.pending.Some? then held + [NEWLINE] else []
  }

  lemma RollSteps(s: State)
    requires ValidScript(ROLL) && ValidState(ROLL, s) && s.abuf == []
    ensures var (s', t) := Step(ROLL, s, 0);
            if s.dolflag then (s', t) == (s, Goto(1))
            else t == Suspend(1) && s' == s.(linebuf := s.linebuf + [NEWLINE], lsize := s'.lsize)
    ensures Step(ROLL, s, 1) == (s.(out := s.out + FirstLine(s.linebuf) + [NEWLINE]), Goto(2))
    ensures var (s', t), l := Step(ROLL, s, 2), FirstLine(s.linebuf);
            if |l| == |s.linebuf| then (s', t) == (s, EndCycle(true))
            else t == Goto(0) && s' == s.(linebuf := s.linebuf[|l| + 1..], lsize := s'.lsize)
  {
    hide Step, FirstLine, WriteAll;
    Selected(ROLL, s, 0);
    Selected(ROLL, s, 1);
    Selected(ROLL, s, 2);
    WriteOne([]);
    NothingAdded(s.out, []);
  }

  /** The commands from the first one on, with one line in the buffer. */
  lemma RollOne(s: State, n: nat)
    requires ValidScript(ROLL) && ValidState(ROLL, s) && s.abuf == [] && NEWLINE !in s.linebuf && n >= 3
    ensures var (s', t) := Loop(ROLL, s, 0, n);
            if s.dolflag then t == EndCycle(true) && s'.abuf == [] && s'.out == s.out + s.linebuf + [NEWLINE]
            else t == Suspend(1) && s'.abuf == [] && s'.out == s.out && s'.linebuf == s.linebuf + [NEWLINE]
  {
    hide Step, Act, Loop, FirstLine;
    RollSteps(s);
    Turns(ROLL, s, 0, n);
    if s.dolflag {
      Turns(ROLL, s, 1, n - 1);
      var s1 := Step(ROLL, s, 1).0;
      NoNewline(s.linebuf);
      RollSteps(s1);
      Turns(ROLL, s1, 2, n - 2);
    }
  }

  /** The commands behind `N`, with two lines in the buffer. */
  lemma RollTwo(s: State, held: seq<byte>, line: seq<byte>, n: nat)
    requires ValidScript(ROLL) && ValidState(ROLL, s) && s.abuf == [] && s.linebuf == held + [NEWLINE] + line
    requires NEWLINE !in held && NEWLINE !in line && n >= 5
    ensures var (s', t) := Loop(ROLL, s, 1, n);
            if s.dolflag then
              t == EndCycle(true) && s'.abuf == [] && s'.out == s.out + held + [NEWLINE] + line + [NEWLINE]
            else
              t == Suspend(1) && s'.abuf == [] && s'.out == s.out + held + [NEWLINE] && s'.linebuf == line + [NEWLINE]
  {
    hide Step, Act, Loop, FirstLine;
    TwoLines(held, line);
    RollSteps(s);
    Turns(ROLL, s, 1, n);
    var s1 := Step(ROLL, s, 1).0;
    RollSteps(s1);
    Turns(ROLL, s1, 2, n - 1);
    RollOne(Step(ROLL, s1, 2).0, n - 2);
  }

  lemma TwoLines(held: seq<byte>, line: seq<byte>)
    requires NEWLINE !in held
    ensures var both := held + [NEWLINE] + line; FirstLine(both) == held && both[|held| + 1..] == line
  {
    var both := held + [NEWLINE] + line;
    FirstLineIs(both, |held|);
    assert both[..|held|] == held;
  }

  lemma RollExecutes(m: Machine, held: seq<byte>, line: seq<byte>, last: bool, n: nat)
    requires ValidScript(ROLL) && Rolls(m, held) && NulFree(line) && NEWLINE !in line && n >= 5
    ensures var r := Execute(ROLL, m, line, last, n);
            && r.Some? && Rolls(r.value, if last then [] else line) && (r.value.pending.Some? <==> !last)
            && r.value.s.out == m.s.out + Kept(m, held) + if last then line + [NEWLINE] else []
  {
    hide Step, Act, Settle, Loop, Load, FirstLine, WriteAll;
    Begun(ROLL, m, line, last);
    var s := Load(m.s, line, last);
    if m.pending.Some? {
      RollTwo(s, held, line, n);
      Assoc(s.out, held, [NEWLINE]);
      Assoc(s.out + held + [NEWLINE], line, [NEWLINE]);
    } else {
      assert [] + line == line;
      RollOne(s, n);
      Assoc(s.out, line, [NEWLINE]);
    }
    NothingAdded(s.out, Kept(m, held));
    var (s', t) := Loop(ROLL, s, Start(m), n);
    Settled(ROLL, s', true);
    WriteOne([]);
    NothingAdded(s'.out, []);
    Waits(ROLL, s', 1);
  }

  lemma {:induction false} RollPush(m: Machine, held: seq<byte>, lines: seq<seq<byte>>, n: nat)
    requires ValidScript(ROLL) && Rolls(m, held) && Proper(lines) && (m.pending.Some? ==> lines != []) && n >= 5
    ensures Text(lines)
    ensures var r := Push(ROLL, m, lines, true, n);
            r.Some? && r.value.s.out == m.s.out + Kept(m, held) + Unlines(lines)
    decreases |lines|
  {
    hide Execute, Push, Unlines;
    PushFirst(ROLL, m, lines, n);
    UnlinesOnce(lines);
    if lines != [] {
      var last := |lines| == 1;
      RollExecutes(m, held, lines[0], last, n);
      var m' := Execute(ROLL, m, lines[0], last, n).value;
      RollPush(m', if last then [] else lines[0], lines[1..], n);
      if last {
        NothingUnlined();
        assert lines[1..] == [];
      }
      RollJoins(m.s.out + Kept(m, held), lines[0] + [NEWLINE], Unlines(lines[1..]), last);
    } else {
      NothingAdded(m.s.out, Kept(m, held));
    }
  }

  lemma RollJoins(out: seq<byte>, line: seq<byte>, rest: seq<byte>, last: bool)
    ensures out + (if last then line else []) + (if last then [] else line) + rest == out + (line + rest)
  {
  }

  /** `$!N;P;D` writes every line: each is written, and taken out of the buffer, when the one behind it is there. */
  lemma RollsOn(text: seq<byte>, n: nat)
    requires NulFree(text) && n >= 5
    ensures ValidScript(ROLL)
    ensures var r := Pushed(ROLL, text, n); r.Some? && r.value.s.out == Closed(text)
  {
    hide Lines, Push, Closed, Unlines;
    LinesProper(text);
    RollPush(Fresh(ROLL), [], Lines(text), n);
    TextIsLines(text);
    NothingAdded([], Unlines(Lines(text)));
    assert [] + [] + Unlines(Lines(text)) == Unlines(Lines(text));
  }

  // ----- the first lines: q -----

  function Head(k: nat, quiet: bool): Script {
    Script([OneNode(Quit, Some(Line(k)), false)], quiet)
  }

  lemma HeadExecutes(k: nat, quiet: bool, m: Machine, done: seq<seq<byte>>, last: bool, n: nat)
    requires Proper(done) && done != [] && ValidScript(Head(k, quiet)) && Between(Head(k, quiet), m, done[..|done| - 1])
    requires n > 0
    ensures NulFree(Current(done))
    ensures var r := Execute(Head(k, quiet), m, Current(done), last, n);
            && r.Some? && ValidMachine(Head(k, quiet), r.value)
            && r.value.s.out == m.s.out + Passed(quiet, Current(done))
            && if |done| == k then r.value.quit else Between(Head(k, quiet), r.value, done)
  {
    hide Step, Settle, Loop, Load, WriteAll, Passed;
    var sc := Head(k, quiet);
    Loaded(sc, m, done, last);
    var s := Load(m.s, Current(done), last);
    Turns(sc, s, 0, n);
    Selected(sc, s, 0);
    WriteOne([]);
    NothingAdded(s.out, Passed(quiet, s.linebuf));
    PassedOn(sc, s);
    if |done| == k {
      var s' := Step(sc, s, 0).0;
      Waits(sc, s', 0);
    } else {
      LoopEnds(sc, s, n - 1);
      Settled(sc, s, false);
    }
  }

  lemma PassedOn(sc: Script, s: State)
    ensures AutoPrint(sc, s) == s.(out := s.out + Passed(sc.nflag, s.linebuf))
  {
    Assoc(s.out, s.linebuf, [NEWLINE]);
    assert s.out + [] == s.out;
  }

  lemma {:induction false} HeadPush(k: nat, quiet: bool, m: Machine, lines: seq<seq<byte>>, j: nat, n: nat)
    requires Proper(lines) && j <= |lines| && j < k && ValidScript(Head(k, quiet)) && n > 0
    requires Between(Head(k, quiet), m, lines[..j])
    ensures var r := Push(Head(k, quiet), m, lines[j..], true, n);
            && r.Some?
            && r.value.s.out
               == m.s.out + if quiet then [] else Unlines(lines[j..if k <= |lines| then k else |lines|])
    decreases |lines| - j
  {
    hide Execute, Push, Unlines, Passed;
    var sc, to := Head(k, quiet), if k <= |lines| then k else |lines|;
    PushOne(sc, m, lines, j, n);
    UnlinesOnce(lines[j..to]);
    if j < |lines| {
      var done, last := lines[..j + 1], j + 1 == |lines|;
      assert done[..j] == lines[..j] && lines[j..to][0] == lines[j] && lines[j..to][1..] == lines[j + 1..to];
      HeadExecutes(k, quiet, m, done, last, n);
      var m' := Execute(sc, m, Current(done), last, n).value;
      PassedIs(Current(done));
      if j + 1 == k {
        PushQuits(sc, m', lines[j + 1..], n);
        assert lines[k..to] == [];
        NothingUnlined();
        NothingAdded(m.s.out, Current(done) + [NEWLINE]);
        NothingAdded(Current(done), [NEWLINE]);
      } else {
        HeadPush(k, quiet, m', lines, j + 1, n);
        Assoc(m.s.out, Current(done) + [NEWLINE], Unlines(lines[j + 1..to]));
        NothingAdded(m.s.out, []);
      }
    } else {
      NothingAdded(m.s.out, []);
    }
  }

  lemma PushQuits(sc: Script, m: Machine, lines: seq<seq<byte>>, n: nat)
    requires ValidScript(sc) && ValidMachine(sc, m) && Text(lines) && m.quit
    ensures Push(sc, m, lines, true, n) == Some(m)
  {
  }

  /** `kq` writes the first k lines, and nothing under `-n`. */
  lemma FirstLines(k: nat, quiet: bool, text: seq<byte>, n: nat)
    requires NulFree(text) && n > 0 && k > 0
    ensures ValidScript(Head(k, quiet))
    ensures var lines, r := Lines(text), Pushed(Head(k, quiet), text, n);
            && r.Some?
            && r.value.s.out == if quiet then [] else Unlines(lines[..if k <= |lines| then k else |lines|])
  {
    hide Lines, Push, Unlines;
    LinesProper(text);
    var lines := Lines(text);
    assert lines[..0] == [] && lines[0..] == lines;
    HeadPush(k, quiet, Fresh(Head(k, quiet)), lines, 0, n);
    var to := if k <= |lines| then k else |lines|;
    assert lines[0..to] == lines[..to];
    assert [] + Unlines(lines[..to]) == Unlines(lines[..to]);
  }
}
