/** Every command a run comes to, over any number of lines. */
module Traces {
  import opened Options
  import opened Bytes
  import opened Script
  import opened Evaluation
  import opened PushPull

  /** A command reached: the state before it, and its position. */
  datatype Point = Point(s: State, pc: nat)

  ghost predicate Sound(sc: Script, trace: seq<Point>) {
    forall k :: 0 <= k < |trace| ==> ValidState(sc, trace[k].s) && trace[k].pc < |sc.nodes|
  }

  /** The commands the loop of `execute` comes to within n turns. */
  function LoopTrace(sc: Script, s: State, pc: nat, n: nat): (trace: seq<Point>)
    requires ValidScript(sc) && ValidState(sc, s) && pc <= |sc.nodes|
    ensures Sound(sc, trace)
    ensures trace == [] <==> pc == |sc.nodes| || n == 0
    ensures trace != [] ==> trace[0] == Point(s, pc)
    decreases n
  {
    if pc == |sc.nodes| || n == 0 then []
    else
      StepValid(sc, s, pc);
      var (s', t) := Step(sc, s, pc);
      [Point(s, pc)] + if t.Goto? then LoopTrace(sc, s', t.pc, n - 1) else []
  }

  /** The commands a machine comes to when lines are pushed. */
  function RunTrace(sc: Script, m: Machine, lines: seq<seq<byte>>, closed: bool, n: nat): (trace: seq<Point>)
    requires ValidScript(sc) && ValidMachine(sc, m) && Text(lines)
    ensures Sound(sc, trace)
    decreases |lines|
  {
    if lines == [] || m.quit then []
    else
      var last := closed && |lines| == 1;
      var r := Execute(sc, m, lines[0], last, n);
      LoopTrace(sc, Load(m.s, lines[0], last), Start(m), n)
      + if r.None? then [] else RunTrace(sc, r.value, lines[1..], closed, n)
  }

  lemma LoopTraceOnce(sc: Script, s: State, pc: nat, n: nat)
    requires ValidScript(sc) && ValidState(sc, s) && pc < |sc.nodes| && n > 0
    ensures var (s', t) := Step(sc, s, pc);
            && ValidState(sc, s') && (t.Goto? ==> t.pc <= |sc.nodes|) && (t.Suspend? ==> t.next <= |sc.nodes|)
            && LoopTrace(sc, s, pc, n) == [Point(s, pc)] + (if t.Goto? then LoopTrace(sc, s', t.pc, n - 1) else [])
            && Loop(sc, s, pc, n) == if t.Goto? then Loop(sc, s', t.pc, n - 1) else (s', t)
  {
    StepValid(sc, s, pc);
  }

  lemma RunTraceOnce(sc: Script, m: Machine, lines: seq<seq<byte>>, closed: bool, n: nat)
    requires ValidScript(sc) && ValidMachine(sc, m) && Text(lines) && lines != [] && !m.quit
    ensures var last := closed && |lines| == 1;
            var s, r := Load(m.s, lines[0], last), Execute(sc, m, lines[0], last, n);
            && ValidState(sc, s) && Text(lines[1..])
            && Push(sc, m, lines, closed, n) == (if r.None? then None else Push(sc, r.value, lines[1..], closed, n))
            && RunTrace(sc, m, lines, closed, n)
               == LoopTrace(sc, s, Start(m), n) + if r.None? then [] else RunTrace(sc, r.value, lines[1..], closed, n)
  {
  }
}
