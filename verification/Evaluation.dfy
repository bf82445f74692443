/** What a script does to one line, as functions on the evaluator's state: `execute` and `command`. */
module Evaluation {
  import opened Options
  import opened Bytes
  import opened MatchSpec
  import opened Substitution
  import opened MatchFacts
  import opened Script
  import LineList

  /** SED_ABUFSIZE */
  const QUEUE: nat := 20

  /**
   * The buffers, counters and flags that commands read and write. lsize is the size of the line buffer, None from the
   * moment the source would follow a pointer out of its buffer; the rest is then what it should have been.
   */
  datatype State = State(linebuf: seq<byte>, holdbuf: seq<byte>, lnum: nat, dolflag: bool, sflag: bool,
                         abuf: seq<seq<byte>>, inar: seq<bool>, out: seq<byte>, lsize: Option<nat>)

  ghost predicate ValidState(sc: Script, s: State) {
    && |s.inar| == |sc.nodes| && |s.abuf| <= QUEUE
    && NulFree(s.linebuf) && NulFree(s.holdbuf)
    && forall k :: 0 <= k < |s.inar| && s.inar[k] ==> sc.nodes[k].ad2.Some?
  }

  /** Where a command leaves the evaluator: go on, end of the cycle, waiting for the next line, or finished. */
  datatype Turn = Goto(pc: nat) | EndCycle(delete: bool) | Suspend(next: nat) | Halt

  // ----- the line buffer -----

  /** `append_to_linebuf` */
  function AppendLine(s: State, text: seq<byte>): State {
    s.(linebuf := s.linebuf + text, lsize := GrownTo(s.lsize, |s.linebuf| + |text| + 1))
  }

  /** `copy_to_linebuf` */
  function CopyLine(s: State, text: seq<byte>): State {
    s.(linebuf := text, lsize := GrownTo(s.lsize, |text| + 1))
  }

  // ----- output -----

  /** `wline` */
  function WriteLine(s: State, text: seq<byte>): State {
    s.(out := s.out + text + [NEWLINE])
  }

  function WriteAll(texts: seq<seq<byte>>): seq<byte> {
    if texts == [] then [] else texts[0] + [NEWLINE] + WriteAll(texts[1..])
  }

  /** `arout`: write what `a` has queued. */
  function FlushQueue(s: State): State {
    s.(out := s.out + WriteAll(s.abuf), abuf := [])
  }

  function AutoPrint(sc: Script, s: State): State {
    if sc.nflag then s else WriteLine(s, s.linebuf)
  }

  /** Up to the first newline, or all of it. */
  function FirstLine(s: seq<byte>): (r: seq<byte>)
    ensures r <= s && NEWLINE !in r && (|r| < |s| ==> s[|r|] == NEWLINE)
  {
    if s == [] || s[0] == NEWLINE then [] else [s[0]] + FirstLine(s[1..])
  }

  lemma {:induction false} FirstLineIs(s: seq<byte>, p: nat)
    requires p <= |s| && (forall k :: 0 <= k < p ==> s[k] != NEWLINE) && (p < |s| ==> s[p] == NEWLINE)
    ensures FirstLine(s) == s[..p]
  {
    if p > 0 {
      assert forall k :: 0 <= k < p - 1 ==> s[1..][k] == s[k + 1];
      FirstLineIs(s[1..], p - 1);
      assert s[..p] == [s[0]] + s[1..][..p - 1];
    }
  }

  function Decimal(n: nat): (d: seq<byte>)
    ensures d != [] && forall k :: 0 <= k < |d| ==> 48 <= d[k] <= 57
  {
    if n < 10 then [48 + n] else Decimal(n / 10) + [48 + n % 10]
  }

  /** The number that digits stand for. */
  function ReadDecimal(d: seq<byte>): int {
    if d == [] then 0 else 10 * ReadDecimal(d[..|d| - 1]) + (d[|d| - 1] as int - 48)
  }

  /** The digits of a number stand for it, and the first is 0 for the number 0 only. */
  lemma {:induction false} DecimalReads(n: nat)
    ensures ReadDecimal(Decimal(n)) == n && (Decimal(n)[0] == 48 <==> n == 0)
  {
    if n < 10 {
      assert [48 + n][..0] == [];
    } else {
      DecimalReads(n / 10);
      assert Decimal(n)[..|Decimal(n)| - 1] == Decimal(n / 10);
    }
  }

  function Mapped(line: seq<byte>, table: seq<byte>): (r: seq<byte>)
    requires |table| == 256
    ensures |r| == |line| && forall k :: 0 <= k < |line| ==> r[k] == table[line[k]]
  {
    seq(|line|, k requires 0 <= k < |line| => table[line[k]])
  }

  // ----- which commands are executed -----

  function Matches(a: Address, s: State): bool {
    match a
    case Last => s.dolflag
    case Line(n) => s.lnum == n
    case Matching(e) => FirstMatch(e, s.linebuf).Match?
  }

  /** Is the line addressed, and is it, after this, inside the command's range? */
  function Addressed(n: Node, s: State, inside: bool): (bool, bool)
    requires inside ==> n.ad2.Some?
  {
    if n.ad1.None? then (true, inside)
    else if inside then
      match n.ad2.value
      case Last => (true, true)
      case Line(m) => (s.lnum <= m, s.lnum < m)
      case Matching(e) => (true, !FirstMatch(e, s.linebuf).Match?)
    else if Matches(n.ad1.value, s) then (true, !n.ad1.value.Last? && n.ad2.Some?)
    else (false, false)
  }

  predicate Executes(n: Node, s: State, inside: bool)
    requires inside ==> n.ad2.Some?
  {
    Addressed(n, s, inside).0 != n.negfl
  }

  // ----- what a command does -----

  function Jump(n: Node): Turn {
    if n.lb1.None? then EndCycle(false) else Goto(n.lb1.value)
  }

  /** `a`: behind the last place of the queue the source writes a terminator. */
  function Queue(s: State, text: seq<byte>): State {
    if |s.abuf| >= QUEUE then s
    else s.(abuf := s.abuf + [text], lsize := if |s.abuf| + 1 == QUEUE then None else s.lsize)
  }

  /** `command` for the node at position pc. */
  function Act(sc: Script, s: State, pc: nat): (State, Turn)
    requires ValidScript(sc) && ValidState(sc, s) && pc < |sc.nodes|
  {
    var n, next := sc.nodes[pc], Goto(pc + 1);
    match n.command
    case Append(t) => (Queue(s, t), next)
    case Change(t) => (if !s.inar[pc] || s.dolflag then WriteLine(s, t) else s, EndCycle(true))
    case Delete => (s, EndCycle(true))
    case DeleteFirst =>
      var l := FirstLine(s.linebuf);
      if |l| == |s.linebuf| then (s, EndCycle(true)) else (CopyLine(s, s.linebuf[|l| + 1..]), Jump(n))
    case Number => (WriteLine(s, Decimal(s.lnum)), next)
    case Get => (CopyLine(s, s.holdbuf), next)
    case GetAppend => (AppendLine(AppendLine(s, [NEWLINE]), s.holdbuf), next)
    case Hold => (s.(holdbuf := s.linebuf), next)
    case HoldAppend => (s.(holdbuf := s.holdbuf + [NEWLINE] + s.linebuf), next)
    case Insert(t) => (WriteLine(s, t), next)
    case Branch => (s, Jump(n))
    case List => (s.(out := s.out + LineList.Listing(s.linebuf)), next)
    case Next => (FlushQueue(AutoPrint(sc, s)).(linebuf := []), Suspend(pc + 1))
    case NextAppend => (AppendLine(FlushQueue(s), [NEWLINE]), Suspend(pc + 1))
    case Print => (WriteLine(s, s.linebuf), next)
    case PrintFirst => (WriteLine(s, FirstLine(s.linebuf)), next)
    case Quit => (FlushQueue(AutoPrint(sc, s)), Halt)
    case Subst(e, rhs, gfl, pfl) => (Substituting(sc, s, e, rhs, gfl, pfl), next)
    case Test => if s.sflag then (s.(sflag := false), Jump(n)) else (s, next)
    case Translate(t) => (s.(linebuf := Mapped(s.linebuf, t)), next)
  }

  /** `s`: the flags `p` and `P` print only under `-n`. */
  function Substituting(sc: Script, s: State, e: Expr, rhs: seq<byte>, gfl: nat, pfl: nat): State
    requires ValidExpr(e) && ValidTemplate(rhs, Groups(e.prog)) && (gfl == 0 || e.circf || Consumes(e.prog))
  {
    var count := |Substitution.Matches(e, s.linebuf, gfl)|;
    var done := Replaces(gfl, count);
    var s' := s.(linebuf := Substituted(e, s.linebuf, rhs, gfl), sflag := if count == 0 then s.sflag else done,
                 lsize := SizeAfter(e, s.linebuf, rhs, gfl, s.lsize));
    if pfl != 0 && sc.nflag && done then WriteLine(s', if pfl == 1 then s'.linebuf else FirstLine(s'.linebuf)) else s'
  }

  // ----- a run over the list of commands -----

  /** One turn of the loop in `execute`, with a command at pc. */
  function Step(sc: Script, s: State, pc: nat): (State, Turn)
    requires ValidScript(sc) && ValidState(sc, s) && pc < |sc.nodes|
  {
    var n := sc.nodes[pc];
    var s' := s.(inar := s.inar[pc := Addressed(n, s, s.inar[pc]).1]);
    if Executes(n, s, s.inar[pc]) then Act(sc, s', pc) else (s', Goto(pc + 1))
  }

  lemma ActValid(sc: Script, s: State, pc: nat)
    requires ValidScript(sc) && ValidState(sc, s) && pc < |sc.nodes|
    ensures ValidState(sc, Act(sc, s, pc).0)
  {
    hide Act;
    ActLine(sc, s, pc);
    ActHold(sc, s, pc);
    ActLeaves(sc, s, pc);
    ActQueue(sc, s, pc);
  }

  lemma ActQueue(sc: Script, s: State, pc: nat)
    requires ValidScript(sc) && ValidState(sc, s) && pc < |sc.nodes|
    ensures |Act(sc, s, pc).0.abuf| <= QUEUE
  {
    hide LineList.Listing, Substituted, Substitution.Matches, Replaces, SizeAfter, Grown, FirstLine, Decimal, Mapped;
  }

  /** What no command changes. */
  lemma ActLeaves(sc: Script, s: State, pc: nat)
    requires ValidScript(sc) && ValidState(sc, s) && pc < |sc.nodes|
    ensures var s' := Act(sc, s, pc).0; s'.inar == s.inar && s'.lnum == s.lnum && s'.dolflag == s.dolflag
  {
    hide LineList.Listing, Substituted, Substitution.Matches, Replaces, SizeAfter, Grown, FirstLine, Decimal, Mapped;
  }

  lemma ActLine(sc: Script, s: State, pc: nat)
    requires ValidScript(sc) && ValidState(sc, s) && pc < |sc.nodes|
    ensures NulFree(Act(sc, s, pc).0.linebuf)
  {
    assert ValidNode(sc.nodes[pc], |sc.nodes|);
    var c := sc.nodes[pc].command;
    if c.Subst? {
      SubstitutedNulFree(c.e, s.linebuf, c.rhs, c.gfl);
    }
  }

  lemma ActHold(sc: Script, s: State, pc: nat)
    requires ValidScript(sc) && ValidState(sc, s) && pc < |sc.nodes|
    ensures NulFree(Act(sc, s, pc).0.holdbuf)
  {
  }

  lemma ActTurn(sc: Script, s: State, pc: nat)
    requires ValidScript(sc) && ValidState(sc, s) && pc < |sc.nodes|
    ensures var t := Act(sc, s, pc).1; (t.Goto? ==> t.pc <= |sc.nodes|) && (t.Suspend? ==> t.next <= |sc.nodes|)
  {
    assert ValidNode(sc.nodes[pc], |sc.nodes|);
  }

  /** Every turn of the loop keeps the state valid and stays inside the list. */
  lemma StepValid(sc: Script, s: State, pc: nat)
    requires ValidScript(sc) && ValidState(sc, s) && pc < |sc.nodes|
    ensures ValidState(sc, Step(sc, s, pc).0)
    ensures var t := Step(sc, s, pc).1; (t.Goto? ==> t.pc <= |sc.nodes|) && (t.Suspend? ==> t.next <= |sc.nodes|)
  {
    var s' := s.(inar := s.inar[pc := Addressed(sc.nodes[pc], s, s.inar[pc]).1]);
    ActValid(sc, s', pc);
    ActTurn(sc, s', pc);
  }

  /** The loop of `execute`, for at most n turns: Goto when it has not come to an end by then. */
  function Loop(sc: Script, s: State, pc: nat, n: nat): (State, Turn)
    requires ValidScript(sc) && ValidState(sc, s) && pc <= |sc.nodes|
    decreases n
  {
    if pc == |sc.nodes| then (s, EndCycle(false))
    else if n == 0 then (s, Goto(pc))
    else
      StepValid(sc, s, pc);
      var (s', t) := Step(sc, s, pc);
      if t.Goto? then Loop(sc, s', t.pc, n - 1) else (s', t)
  }

  /** The end of a cycle: the line is printed unless deleted, then what `a` has queued. */
  function Finish(sc: Script, s: State, delete: bool): State {
    FlushQueue(if delete then s else AutoPrint(sc, s)).(linebuf := [])
  }

  // ----- pointers out of their buffers -----

  /** Once a pointer has been followed out of its buffer, that stays so. */
  lemma StepLost(sc: Script, s: State, pc: nat)
    requires ValidScript(sc) && ValidState(sc, s) && pc < |sc.nodes| && s.lsize.None?
    ensures Step(sc, s, pc).0.lsize.None?
  {
  }

  lemma {:induction false} LoopLost(sc: Script, s: State, pc: nat, n: nat)
    requires ValidScript(sc) && ValidState(sc, s) && pc <= |sc.nodes| && s.lsize.None?
    ensures Loop(sc, s, pc, n).0.lsize.None?
    decreases n
  {
    if pc < |sc.nodes| && n > 0 {
      StepValid(sc, s, pc);
      StepLost(sc, s, pc);
      var (s', t) := Step(sc, s, pc);
      if t.Goto? {
        LoopLost(sc, s', t.pc, n - 1);
      }
    }
  }

  // ----- a run when `q` has been executed already -----

  /** The loop of `execute` with quitflag set: it returns after the first command it executes. */
  function LoopAfterQuit(sc: Script, s: State, pc: nat): (State, bool)
    requires ValidScript(sc) && ValidState(sc, s) && pc <= |sc.nodes|
    decreases |sc.nodes| - pc
  {
    if pc == |sc.nodes| then (s, true)
    else
      StepValid(sc, s, pc);
      var s' := Step(sc, s, pc).0;
      if Executes(sc.nodes[pc], s, s.inar[pc]) then (s', false) else LoopAfterQuit(sc, s', pc + 1)
  }

  function ExecuteAfterQuit(sc: Script, s: State): State
    requires ValidScript(sc) && ValidState(sc, s)
  {
    var (s', fell) := LoopAfterQuit(sc, s, 0);
    if fell then Finish(sc, s', false) else s'
  }
}
