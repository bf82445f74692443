/**
 * The evaluator is pushed one line at a time: `n` and `N` suspend it until the next line arrives. An interpreter
 * that reads the next line in place, where `n` and `N` ask for it, writes the same output.
 */
module PushPull {
  import opened Options
  import opened Bytes
  import opened Script
  import opened Substitution
  import opened Evaluation
  import LineList

  // ----- pushing lines -----

  /** Between lines: the state, where to resume, and whether `q` has been executed. */
  datatype Machine = Machine(s: State, pending: Option<nat>, quit: bool)

  ghost predicate ValidMachine(sc: Script, m: Machine) {
    ValidState(sc, m.s) && (m.pending.Some? ==> !m.quit && m.pending.value <= |sc.nodes|)
  }

  function Initial(sc: Script): State {
    State([], [], 0, false, false, [], seq(|sc.nodes|, k => false), [], Some(INIT_BUF_SIZE))
  }

  /** The next line has been appended to the line buffer. */
  function Load(s: State, line: seq<byte>, last: bool): State {
    AppendLine(s, line).(lnum := s.lnum + 1, sflag := false, dolflag := last)
  }

  function Start(m: Machine): nat {
    if m.pending.Some? then m.pending.value else 0
  }

  /** How `execute` returns. */
  function Settle(sc: Script, s: State, t: Turn): Machine
    requires !t.Goto?
  {
    match t
    case EndCycle(delete) => Machine(Finish(sc, s, delete), None, false)
    case Suspend(next) => Machine(s, Some(next), false)
    case Halt => Machine(s, None, true)
  }

  /** `execute` with one more line; None when it is not through after n turns. */
  function Execute(sc: Script, m: Machine, line: seq<byte>, last: bool, n: nat): (r: Option<Machine>)
    requires ValidScript(sc) && ValidMachine(sc, m) && NulFree(line)
    ensures r.Some? ==> ValidMachine(sc, r.value)
  {
    LoopValid(sc, Load(m.s, line, last), Start(m), n);
    var (s, t) := Loop(sc, Load(m.s, line, last), Start(m), n);
    if t.Goto? then None else Some(Settle(sc, s, t))
  }

  ghost predicate Text(lines: seq<seq<byte>>) {
    forall k :: 0 <= k < |lines| ==> NulFree(lines[k])
  }

  /** The lines one after the other, until `q`; the last one is known to be the last when the input is closed. */
  function Push(sc: Script, m: Machine, lines: seq<seq<byte>>, closed: bool, n: nat): (r: Option<Machine>)
    requires ValidScript(sc) && ValidMachine(sc, m) && Text(lines)
    ensures r.Some? ==> ValidMachine(sc, r.value)
    decreases |lines|
  {
    if lines == [] || m.quit then Some(m)
    else
      var r := Execute(sc, m, lines[0], closed && |lines| == 1, n);
      if r.None? then None else Push(sc, r.value, lines[1..], closed, n)
  }

  lemma {:induction false} LoopValid(sc: Script, s: State, pc: nat, n: nat)
    requires ValidScript(sc) && ValidState(sc, s) && pc <= |sc.nodes|
    ensures ValidState(sc, Loop(sc, s, pc, n).0)
    ensures var t := Loop(sc, s, pc, n).1; (t.Goto? ==> t.pc <= |sc.nodes|) && (t.Suspend? ==> t.next <= |sc.nodes|)
    decreases n
  {
    hide Step, ValidState;
    if pc < |sc.nodes| && n > 0 {
      StepValid(sc, s, pc);
      var (s', t) := Step(sc, s, pc);
      if t.Goto? {
        LoopValid(sc, s', t.pc, n - 1);
      }
    }
  }

  // ----- output -----

  lemma ActWrites(sc: Script, s: State, pc: nat)
    requires ValidScript(sc) && ValidState(sc, s) && pc < |sc.nodes|
    ensures s.out <= Act(sc, s, pc).0.out
  {
    hide LineList.Listing, Substituted, Substitution.Matches, Replaces, SizeAfter, Grown;
    hide FirstLine, Decimal, Mapped, WriteAll;
    match sc.nodes[pc].command {
      case Subst(e, rhs, gfl, pfl) => assert s.out <= Substituting(sc, s, e, rhs, gfl, pfl).out;
      case Next =>
      case NextAppend =>
      case Quit =>
      case Append(_) =>
      case _ =>
    }
  }

  lemma {:induction false} LoopWrites(sc: Script, s: State, pc: nat, n: nat)
    requires ValidScript(sc) && ValidState(sc, s) && pc <= |sc.nodes|
    ensures s.out <= Loop(sc, s, pc, n).0.out
    decreases n
  {
    hide Act;
    if pc < |sc.nodes| && n > 0 {
      StepValid(sc, s, pc);
      ActWrites(sc, s.(inar := s.inar[pc := Addressed(sc.nodes[pc], s, s.inar[pc]).1]), pc);
      var (s', t) := Step(sc, s, pc);
      if t.Goto? {
        LoopWrites(sc, s', t.pc, n - 1);
      }
    }
  }

  /** What has been written stays: every command, and every line, only adds to the output. */
  lemma {:induction false} OutputGrows(sc: Script, m: Machine, lines: seq<seq<byte>>, closed: bool, n: nat)
    requires ValidScript(sc) && ValidMachine(sc, m) && Text(lines)
    ensures var r := Push(sc, m, lines, closed, n); r.Some? ==> m.s.out <= r.value.s.out
    decreases |lines|
  {
    hide Loop, Settle;
    if lines != [] && !m.quit {
      var last := closed && |lines| == 1;
      var s := Load(m.s, lines[0], last);
      LoopWrites(sc, s, Start(m), n);
      var r := Execute(sc, m, lines[0], last, n);
      if r.Some? {
        SettleWrites(sc, Loop(sc, s, Start(m), n).0, Loop(sc, s, Start(m), n).1);
        OutputGrows(sc, r.value, lines[1..], closed, n);
      }
    }
  }

  lemma SettleWrites(sc: Script, s: State, t: Turn)
    requires !t.Goto?
    ensures s.out <= Settle(sc, s, t).s.out
  {
  }

  // ----- pulling lines -----

  /**
   * The direct interpreter: at the command at pc, with the lines in rest still to be read; or done, all pointers having
   * stayed in their buffers or not.
   */
  datatype Puller = Reading(s: State, pc: nat, rest: seq<seq<byte>>) | Done(out: seq<byte>, sound: bool)

  ghost predicate ValidPuller(sc: Script, p: Puller) {
    p.Reading? ==> ValidState(sc, p.s) && p.pc <= |sc.nodes| && Text(p.rest)
  }

  /** The next line of input is read into the line buffer, behind what it holds; without one, the run is over. */
  function ReadInto(s: State, pc: nat, rest: seq<seq<byte>>): Puller {
    if rest == [] then Over(s)
    else Reading(AppendLine(s, rest[0]).(lnum := s.lnum + 1, sflag := false, dolflag := |rest| == 1), pc, rest[1..])
  }

  function Over(s: State): Puller {
    Done(s.out, s.lsize.Some?)
  }

  /** A command executed: `n` and `N` read the next line themselves. */
  function PullAct(sc: Script, s: State, pc: nat, rest: seq<seq<byte>>): Puller
    requires ValidScript(sc) && ValidState(sc, s) && pc < |sc.nodes|
  {
    var command := sc.nodes[pc].command;
    if command.Next? then ReadInto(FlushQueue(AutoPrint(sc, s)).(linebuf := []), pc + 1, rest)
    else if command.NextAppend? then ReadInto(AppendLine(FlushQueue(s), [NEWLINE]), pc + 1, rest)
    else if command.Quit? then Over(FlushQueue(AutoPrint(sc, s)))
    else
      var (s', t) := Act(sc, s, pc);
      if t.Goto? then Reading(s', t.pc, rest) else ReadInto(Finish(sc, s', t.delete), 0, rest)
  }

  function PullStep(sc: Script, s: State, pc: nat, rest: seq<seq<byte>>): Puller
    requires ValidScript(sc) && ValidState(sc, s) && pc <= |sc.nodes|
  {
    if pc == |sc.nodes| then ReadInto(Finish(sc, s, false), 0, rest)
    else
      var node := sc.nodes[pc];
      var s' := s.(inar := s.inar[pc := Addressed(node, s, s.inar[pc]).1]);
      if Executes(node, s, s.inar[pc]) then PullAct(sc, s', pc, rest) else Reading(s', pc + 1, rest)
  }

  /** Where the puller stands when the pusher waits in m for the lines in rest. */
  function Waiting(m: Machine, rest: seq<seq<byte>>): Puller {
    if m.quit then Over(m.s) else ReadInto(m.s, Start(m), rest)
  }

  /** The same after a turn of the loop in `execute`. */
  function After(sc: Script, s: State, t: Turn, rest: seq<seq<byte>>): Puller {
    if t.Goto? then Reading(s, t.pc, rest) else Waiting(Settle(sc, s, t), rest)
  }

  /** One turn of the loop in `execute`, and what follows when it is the last, is one step of the direct interpreter. */
  lemma SameTurn(sc: Script, s: State, pc: nat, rest: seq<seq<byte>>)
    requires ValidScript(sc) && ValidState(sc, s) && pc < |sc.nodes|
    ensures var (s', t) := Step(sc, s, pc); PullStep(sc, s, pc, rest) == After(sc, s', t, rest)
  {
    var s' := s.(inar := s.inar[pc := Addressed(sc.nodes[pc], s, s.inar[pc]).1]);
    if Executes(sc.nodes[pc], s, s.inar[pc]) {
      SameAct(sc, s', pc, rest);
    }
  }

  lemma SameAct(sc: Script, s: State, pc: nat, rest: seq<seq<byte>>)
    requires ValidScript(sc) && ValidState(sc, s) && pc < |sc.nodes|
    ensures var (s', t) := Act(sc, s, pc); PullAct(sc, s, pc, rest) == After(sc, s', t, rest)
  {
    match sc.nodes[pc].command
    case Next =>
    case NextAppend =>
    case Quit =>
    case _ =>
      var (s', t) := Act(sc, s, pc);
      if t.EndCycle? {
        SameEnd(sc, s', t, rest);
      }
  }

  lemma SameEnd(sc: Script, s: State, t: Turn, rest: seq<seq<byte>>)
    requires t.EndCycle?
    ensures After(sc, s, t, rest) == ReadInto(Finish(sc, s, t.delete), 0, rest)
  {
  }

  lemma PullStepValid(sc: Script, s: State, pc: nat, rest: seq<seq<byte>>)
    requires ValidScript(sc) && ValidState(sc, s) && pc <= |sc.nodes| && Text(rest)
    ensures ValidPuller(sc, PullStep(sc, s, pc, rest))
  {
    if pc < |sc.nodes| {
      StepValid(sc, s, pc);
      SameTurn(sc, s, pc, rest);
    }
  }

  function Pull(sc: Script, p: Puller, n: nat): Puller
    requires ValidScript(sc) && ValidPuller(sc, p)
    decreases n
  {
    if n == 0 || p.Done? then p
    else
      PullStepValid(sc, p.s, p.pc, p.rest);
      Pull(sc, PullStep(sc, p.s, p.pc, p.rest), n - 1)
  }

  // ----- the two agree -----

  lemma {:induction false} PullAdds(sc: Script, p: Puller, a: nat, b: nat)
    requires ValidScript(sc) && ValidPuller(sc, p)
    ensures ValidPuller(sc, Pull(sc, p, a)) && Pull(sc, Pull(sc, p, a), b) == Pull(sc, p, a + b)
    decreases a
  {
    hide PullStep;
    if a > 0 && p.Reading? {
      PullStepValid(sc, p.s, p.pc, p.rest);
      PullAdds(sc, PullStep(sc, p.s, p.pc, p.rest), a - 1, b);
    }
  }

  lemma SettleValid(sc: Script, s: State, t: Turn)
    requires ValidState(sc, s) && !t.Goto? && (t.Suspend? ==> t.next <= |sc.nodes|)
    ensures ValidMachine(sc, Settle(sc, s, t))
  {
  }

  lemma WaitingValid(sc: Script, m: Machine, rest: seq<seq<byte>>)
    requires ValidMachine(sc, m) && Text(rest)
    ensures ValidPuller(sc, Waiting(m, rest))
  {
  }

  /** A loop that comes to its end, followed by the direct interpreter. */
  lemma {:induction false} LoopIsPulled(sc: Script, s: State, pc: nat, rest: seq<seq<byte>>, n: nat) returns (k: nat)
    requires ValidScript(sc) && ValidState(sc, s) && pc <= |sc.nodes| && Text(rest) && !Loop(sc, s, pc, n).1.Goto?
    ensures var (s', t) := Loop(sc, s, pc, n); k > 0 && Pull(sc, Reading(s, pc, rest), k) == After(sc, s', t, rest)
    decreases n
  {
    PullStepValid(sc, s, pc, rest);
    if pc == |sc.nodes| {
      k := 1;
    } else {
      StepValid(sc, s, pc);
      SameTurn(sc, s, pc, rest);
      var (s', t) := Step(sc, s, pc);
      if t.Goto? {
        k := LoopIsPulled(sc, s', t.pc, rest, n - 1);
        k := k + 1;
      } else {
        k := 1;
      }
    }
  }

  /** A line pushed, as a loop of `execute` and the way it returns. */
  lemma PushOnce(sc: Script, m: Machine, lines: seq<seq<byte>>, n: nat)
    requires ValidScript(sc) && ValidMachine(sc, m) && Text(lines) && lines != [] && !m.quit
    ensures var s := Load(m.s, lines[0], |lines| == 1);
            && ValidState(sc, s)
            && Waiting(m, lines) == Reading(s, Start(m), lines[1..])
            && var (s', t) := Loop(sc, s, Start(m), n);
               if t.Goto? then Push(sc, m, lines, true, n) == None
               else
                 && ValidMachine(sc, Settle(sc, s', t))
                 && Push(sc, m, lines, true, n) == Push(sc, Settle(sc, s', t), lines[1..], true, n)
  {
    LoopValid(sc, Load(m.s, lines[0], |lines| == 1), Start(m), n);
  }

  lemma {:induction false} PushIsPulled(sc: Script, m: Machine, lines: seq<seq<byte>>, n: nat) returns (k: nat)
    requires ValidScript(sc) && ValidMachine(sc, m) && Text(lines) && Push(sc, m, lines, true, n).Some?
    ensures ValidPuller(sc, Waiting(m, lines))
    ensures Pull(sc, Waiting(m, lines), k) == Over(Push(sc, m, lines, true, n).value.s)
    decreases |lines|
  {
    k := 0;
    WaitingValid(sc, m, lines);
    if lines != [] && !m.quit {
      PushOnce(sc, m, lines, n);
      k := PushIsPulledOn(sc, m, lines, n);
    }
  }

  lemma {:induction false} PushIsPulledOn(sc: Script, m: Machine, lines: seq<seq<byte>>, n: nat) returns (k: nat)
    requires ValidScript(sc) && ValidMachine(sc, m) && Text(lines) && Push(sc, m, lines, true, n).Some?
    requires lines != [] && !m.quit && ValidPuller(sc, Waiting(m, lines))
    ensures Pull(sc, Waiting(m, lines), k) == Over(Push(sc, m, lines, true, n).value.s)
    decreases |lines|, 0
  {
    hide Push, Pull, Loop, Settle;
    PushOnce(sc, m, lines, n);
    var rest, s := lines[1..], Load(m.s, lines[0], |lines| == 1);
    var a := LoopIsPulled(sc, s, Start(m), rest, n);
    var (s', t) := Loop(sc, s, Start(m), n);
    var b := PushIsPulled(sc, Settle(sc, s', t), rest, n);
    PullAdds(sc, Reading(s, Start(m), rest), a, b);
    k := a + b;
  }

  lemma LoopOnce(sc: Script, s: State, pc: nat, n: nat)
    requires ValidScript(sc) && ValidState(sc, s) && pc < |sc.nodes| && (n > 0 || !Loop(sc, s, pc, n).1.Goto?)
    ensures n > 0
    ensures var (s', t) := Step(sc, s, pc);
            && ValidState(sc, s') && (t.Goto? ==> t.pc <= |sc.nodes|) && (t.Suspend? ==> t.next <= |sc.nodes|)
            && Loop(sc, s, pc, n) == if t.Goto? then Loop(sc, s', t.pc, n - 1) else (s', t)
  {
    StepValid(sc, s, pc);
  }

  lemma PullOnce(sc: Script, s: State, pc: nat, rest: seq<seq<byte>>, k: nat)
    requires ValidScript(sc) && ValidState(sc, s) && pc < |sc.nodes| && Text(rest) && k > 0
    ensures var (s', t) := Step(sc, s, pc);
            && ValidPuller(sc, After(sc, s', t, rest))
            && Pull(sc, Reading(s, pc, rest), k) == Pull(sc, After(sc, s', t, rest), k - 1)
  {
    PullStepValid(sc, s, pc, rest);
    SameTurn(sc, s, pc, rest);
  }

  lemma {:induction false} PullIsLoop(sc: Script, s: State, pc: nat, rest: seq<seq<byte>>, k: nat, n: nat)
    returns (k': nat)
    requires ValidScript(sc) && ValidState(sc, s) && pc <= |sc.nodes| && Text(rest)
    requires Pull(sc, Reading(s, pc, rest), k).Done? && k <= n
    ensures var (s', t) := Loop(sc, s, pc, n);
            !t.Goto? && k' < k && ValidPuller(sc, After(sc, s', t, rest))
            && Pull(sc, After(sc, s', t, rest), k') == Pull(sc, Reading(s, pc, rest), k)
    decreases k
  {
    assert k > 0;
    k' := k - 1;
    if pc < |sc.nodes| {
      k' := PullIsLoopOn(sc, s, pc, rest, k, n);
    } else {
      PullStepValid(sc, s, pc, rest);
    }
  }

  lemma {:induction false} PullIsLoopOn(sc: Script, s: State, pc: nat, rest: seq<seq<byte>>, k: nat, n: nat)
    returns (k': nat)
    requires ValidScript(sc) && ValidState(sc, s) && pc < |sc.nodes| && Text(rest) && k > 0
    requires Pull(sc, Reading(s, pc, rest), k).Done? && k <= n
    ensures var (s', t) := Loop(sc, s, pc, n);
            !t.Goto? && k' < k && ValidPuller(sc, After(sc, s', t, rest))
            && Pull(sc, After(sc, s', t, rest), k') == Pull(sc, Reading(s, pc, rest), k)
    decreases k, 0
  {
    hide Pull, Loop, Evaluation.Step, Settle, Waiting;
    LoopOnce(sc, s, pc, n);
    PullOnce(sc, s, pc, rest, k);
    k' := k - 1;
    var (s', t) := Step(sc, s, pc);
    if t.Goto? {
      assert After(sc, s', t, rest) == Reading(s', t.pc, rest);
      k' := PullIsLoop(sc, s', t.pc, rest, k - 1, n - 1);
      assert Loop(sc, s, pc, n) == Loop(sc, s', t.pc, n - 1);
    }
  }

  lemma {:induction false} PullIsPushed(sc: Script, m: Machine, lines: seq<seq<byte>>, k: nat, n: nat)
    requires ValidScript(sc) && ValidMachine(sc, m) && Text(lines) && k <= n
    requires ValidPuller(sc, Waiting(m, lines)) && Pull(sc, Waiting(m, lines), k).Done?
    ensures Push(sc, m, lines, true, n).Some?
    ensures Pull(sc, Waiting(m, lines), k) == Over(Push(sc, m, lines, true, n).value.s)
    decreases |lines|
  {
    if lines != [] && !m.quit {
      var rest, s := lines[1..], Load(m.s, lines[0], |lines| == 1);
      var k' := PullIsLoop(sc, s, Start(m), rest, k, n);
      LoopValid(sc, s, Start(m), n);
      var (s', t) := Loop(sc, s, Start(m), n);
      SettleValid(sc, s', t);
      PullIsPushed(sc, Settle(sc, s', t), rest, k', n);
    }
  }

  ghost predicate PushWrites(sc: Script, m: Machine, lines: seq<seq<byte>>, out: seq<byte>, sound: bool)
    requires ValidScript(sc) && ValidMachine(sc, m) && Text(lines)
  {
    exists n :: Push(sc, m, lines, true, n).Some? && Over(Push(sc, m, lines, true, n).value.s) == Done(out, sound)
  }

  ghost predicate PullWrites(sc: Script, p: Puller, out: seq<byte>, sound: bool)
    requires ValidScript(sc) && ValidPuller(sc, p)
  {
    exists k :: Pull(sc, p, k) == Done(out, sound)
  }

  /**
   * Push refines pull, for every script and every input: a run that is pushed its lines one by one ends, and
   * ends having written out, exactly if the interpreter reading its lines in place does, and in both or in neither a
   * pointer is followed out of its buffer on the way.
   */
  lemma PushRefinesPull(sc: Script, m: Machine, lines: seq<seq<byte>>, out: seq<byte>, sound: bool)
    requires ValidScript(sc) && ValidMachine(sc, m) && Text(lines)
    ensures ValidPuller(sc, Waiting(m, lines))
    ensures PushWrites(sc, m, lines, out, sound) <==> PullWrites(sc, Waiting(m, lines), out, sound)
  {
    WaitingValid(sc, m, lines);
    if PushWrites(sc, m, lines, out, sound) {
      var n :| Push(sc, m, lines, true, n).Some? && Over(Push(sc, m, lines, true, n).value.s) == Done(out, sound);
      var k := PushIsPulled(sc, m, lines, n);
    }
    if PullWrites(sc, Waiting(m, lines), out, sound) {
      var k :| Pull(sc, Waiting(m, lines), k) == Done(out, sound);
      PullIsPushed(sc, m, lines, k, k);
    }
  }
}
