/** The size of the line buffer along a run: what it does not change, and when no pointer leaves its buffer. */
module LineRoom {
  import opened Options
  import opened Bytes
  import opened MatchFacts
  import opened Script
  import opened Substitution
  import opened Evaluation
  import opened PushPull
  import LineList

  function Sized(m: Machine, size: Option<nat>): Machine {
    m.(s := m.s.(lsize := size))
  }

  /** The same state, but for the size of the line buffer. */
  ghost predicate Alike(s: State, t: State) {
    s == t.(lsize := s.lsize)
  }

  ghost predicate AlikeMachines(m: Machine, m': Machine) {
    m == Sized(m', m.s.lsize)
  }

  // ----- nothing else depends on the size -----

  lemma ActAlike(sc: Script, s: State, t: State, pc: nat)
    requires ValidScript(sc) && ValidState(sc, s) && ValidState(sc, t) && pc < |sc.nodes| && Alike(s, t)
    ensures Alike(Act(sc, s, pc).0, Act(sc, t, pc).0) && Act(sc, s, pc).1 == Act(sc, t, pc).1
  {
    hide Substituted, Substitution.Matches, Replaces, SizeAfter, Grown, LineList.Listing, FirstLine, Decimal, Mapped,
      WriteAll, ValidTemplate,
      ValidExpr, Consumes, ValidCommand;
    match sc.nodes[pc].command {
      case Subst(e, rhs, gfl, pfl) => SubstAlike(sc, s, t, pc);
      case Test =>
      case DeleteFirst =>
      case Next =>
      case NextAppend =>
      case Quit =>
      case Append(_) =>
      case _ =>
    }
  }

  lemma SubstAlike(sc: Script, s: State, t: State, pc: nat)
    requires ValidScript(sc) && ValidState(sc, s) && ValidState(sc, t) && pc < |sc.nodes| && Alike(s, t)
    requires sc.nodes[pc].command.Subst?
    ensures Alike(Act(sc, s, pc).0, Act(sc, t, pc).0) && Act(sc, s, pc).1 == Act(sc, t, pc).1
  {
    hide Substituted, Substitution.Matches, Replaces, SizeAfter, FirstLine, ValidTemplate, ValidExpr, Consumes;
    var c := sc.nodes[pc].command;
    assert Alike(Substituting(sc, s, c.e, c.rhs, c.gfl, c.pfl), Substituting(sc, t, c.e, c.rhs, c.gfl, c.pfl));
  }

  lemma StepAlike(sc: Script, s: State, t: State, pc: nat)
    requires ValidScript(sc) && ValidState(sc, s) && ValidState(sc, t) && pc < |sc.nodes| && Alike(s, t)
    ensures Alike(Step(sc, s, pc).0, Step(sc, t, pc).0) && Step(sc, s, pc).1 == Step(sc, t, pc).1
  {
    hide Act;
    var n := sc.nodes[pc];
    ActAlike(sc, s.(inar := s.inar[pc := Addressed(n, s, s.inar[pc]).1]),
             t.(inar := t.inar[pc := Addressed(n, t, t.inar[pc]).1]), pc);
  }

  lemma {:induction false} LoopAlike(sc: Script, s: State, t: State, pc: nat, n: nat)
    requires ValidScript(sc) && ValidState(sc, s) && ValidState(sc, t) && pc <= |sc.nodes| && Alike(s, t)
    ensures Alike(Loop(sc, s, pc, n).0, Loop(sc, t, pc, n).0) && Loop(sc, s, pc, n).1 == Loop(sc, t, pc, n).1
    decreases n
  {
    hide Step;
    if pc < |sc.nodes| && n > 0 {
      StepValid(sc, s, pc);
      StepValid(sc, t, pc);
      StepAlike(sc, s, t, pc);
      var (s', turn) := Step(sc, s, pc);
      if turn.Goto? {
        LoopAlike(sc, s', Step(sc, t, pc).0, turn.pc, n - 1);
      }
    }
  }

  /** Whatever the size of the line buffer, a line pushed has the same effect on everything else. */
  lemma ExecuteAlike(sc: Script, m: Machine, m': Machine, line: seq<byte>, last: bool, n: nat)
    requires ValidScript(sc) && ValidMachine(sc, m) && ValidMachine(sc, m') && NulFree(line) && AlikeMachines(m, m')
    ensures var r, r' := Execute(sc, m, line, last, n), Execute(sc, m', line, last, n);
            (r.Some? <==> r'.Some?) && (r.Some? ==> AlikeMachines(r.value, r'.value))
  {
    hide Loop, Settle;
    var s, s', pc := Load(m.s, line, last), Load(m'.s, line, last), Start(m);
    LoopAlike(sc, s, s', pc, n);
    if !Loop(sc, s, pc, n).1.Goto? {
      SettleAlike(sc, Loop(sc, s, pc, n).0, Loop(sc, s', pc, n).0, Loop(sc, s, pc, n).1);
    }
  }

  lemma SettleAlike(sc: Script, s: State, t: State, turn: Turn)
    requires Alike(s, t) && !turn.Goto?
    ensures AlikeMachines(Settle(sc, s, turn), Settle(sc, t, turn))
  {
  }

  lemma {:induction false} PushAlike(sc: Script, m: Machine, m': Machine, lines: seq<seq<byte>>, closed: bool, n: nat)
    requires ValidScript(sc) && ValidMachine(sc, m) && ValidMachine(sc, m') && Text(lines) && AlikeMachines(m, m')
    ensures var r, r' := Push(sc, m, lines, closed, n), Push(sc, m', lines, closed, n);
            (r.Some? <==> r'.Some?) && (r.Some? ==> AlikeMachines(r.value, r'.value))
    decreases |lines|
  {
    hide Execute;
    if lines != [] && !m.quit {
      var last := closed && |lines| == 1;
      ExecuteAlike(sc, m, m', lines[0], last, n);
      var r := Execute(sc, m, lines[0], last, n);
      if r.Some? {
        PushAlike(sc, r.value, Execute(sc, m', lines[0], last, n).value, lines[1..], closed, n);
      }
    }
  }

  /** What has gone wrong in a line pushed stays wrong. */
  lemma {:induction false} PushLost(sc: Script, m: Machine, lines: seq<seq<byte>>, closed: bool, n: nat)
    requires ValidScript(sc) && ValidMachine(sc, m) && Text(lines) && m.s.lsize.None?
    ensures var r := Push(sc, m, lines, closed, n); r.Some? ==> r.value.s.lsize.None?
    decreases |lines|
  {
    hide Execute, ValidMachine;
    if lines != [] && !m.quit {
      var last := closed && |lines| == 1;
      ExecuteLost(sc, m, lines[0], last, n);
      var r := Execute(sc, m, lines[0], last, n);
      if r.Some? {
        PushLost(sc, r.value, lines[1..], closed, n);
      }
    }
  }

  lemma ExecuteLost(sc: Script, m: Machine, line: seq<byte>, last: bool, n: nat)
    requires ValidScript(sc) && ValidMachine(sc, m) && NulFree(line) && m.s.lsize.None?
    ensures var r := Execute(sc, m, line, last, n); r.Some? ==> r.value.s.lsize.None?
  {
    hide Evaluation.Loop;
    LoopLost(sc, Load(m.s, line, last), Start(m), n);
  }

  // ----- a line that waits for the next one fits -----

  lemma {:induction false} WaitingFits(sc: Script, s: State, pc: nat, n: nat)
    requires ValidScript(sc) && ValidState(sc, s) && pc <= |sc.nodes|
    ensures var (s', t) := Loop(sc, s, pc, n); t.Suspend? && s'.lsize.Some? ==> |s'.linebuf| <= s'.lsize.value
    decreases n
  {
    if pc < |sc.nodes| && n > 0 {
      StepValid(sc, s, pc);
      var (s', t) := Step(sc, s, pc);
      if t.Goto? {
        WaitingFits(sc, s', t.pc, n - 1);
      }
    }
  }

  /** Between lines, what the line buffer holds fits. */
  lemma HeldFits(sc: Script, m: Machine, line: seq<byte>, last: bool, n: nat)
    requires ValidScript(sc) && ValidMachine(sc, m) && NulFree(line) && Execute(sc, m, line, last, n).Some?
    ensures var r := Execute(sc, m, line, last, n).value;
            r.s.lsize.Some? && !r.quit ==> |r.s.linebuf| <= r.s.lsize.value
  {
    WaitingFits(sc, Load(m.s, line, last), Start(m), n);
  }

  // ----- scripts that never leave their buffers -----

  /** Neither a flagged `s` nor an `a`. */
  predicate Tame(sc: Script) {
    forall k :: 0 <= k < |sc.nodes| ==>
      !sc.nodes[k].command.Append? && (sc.nodes[k].command.Subst? ==> sc.nodes[k].command.gfl == 0)
  }

  lemma TameStep(sc: Script, s: State, pc: nat)
    requires ValidScript(sc) && ValidState(sc, s) && pc < |sc.nodes| && Tame(sc) && s.lsize.Some?
    ensures Step(sc, s, pc).0.lsize.Some?
  {
  }

  lemma {:induction false} TameLoop(sc: Script, s: State, pc: nat, n: nat)
    requires ValidScript(sc) && ValidState(sc, s) && pc <= |sc.nodes| && Tame(sc) && s.lsize.Some?
    ensures Loop(sc, s, pc, n).0.lsize.Some?
    decreases n
  {
    if pc < |sc.nodes| && n > 0 {
      StepValid(sc, s, pc);
      TameStep(sc, s, pc);
      var (s', t) := Step(sc, s, pc);
      if t.Goto? {
        TameLoop(sc, s', t.pc, n - 1);
      }
    }
  }

  /** A script with neither never follows a pointer out of its buffer, whatever lines are pushed. */
  lemma {:induction false} TamePush(sc: Script, m: Machine, lines: seq<seq<byte>>, closed: bool, n: nat)
    requires ValidScript(sc) && ValidMachine(sc, m) && Text(lines) && Tame(sc) && m.s.lsize.Some?
    ensures var r := Push(sc, m, lines, closed, n); r.Some? ==> r.value.s.lsize.Some?
    decreases |lines|
  {
    if lines != [] && !m.quit {
      var last := closed && |lines| == 1;
      TameLoop(sc, Load(m.s, lines[0], last), Start(m), n);
      var r := Execute(sc, m, lines[0], last, n);
      if r.Some? {
        TamePush(sc, r.value, lines[1..], closed, n);
      }
    }
  }
}
