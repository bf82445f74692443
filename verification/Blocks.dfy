/** How a run of `execute` enters a block. */
module Blocks {
  import opened Options
  import opened Script
  import opened Bytes
  import opened Evaluation
  import opened PushPull
  import opened Traces

  /**
   * The block's node at position open, written with or without `!`, and the position of the command behind the block.
   */
  ghost predicate IsBlock(sc: Script, open: nat, end: nat, neg: bool) {
    && open < end <= |sc.nodes|
    && var n := sc.nodes[open]; n.command.Branch? && n.lb1 == Some(end) && n.negfl == !neg
  }

  /** Does the block's address, or its negation, select the line? */
  predicate Selects(sc: Script, s: State, open: nat, neg: bool)
    requires ValidScript(sc) && ValidState(sc, s) && open < |sc.nodes|
  {
    Addressed(sc.nodes[open], s, s.inar[open]).0 != neg
  }

  /** At the block's node, the run goes on with the body or behind the block, and nothing else happens. */
  lemma BlockTurn(sc: Script, s: State, open: nat, end: nat, neg: bool)
    requires ValidScript(sc) && ValidState(sc, s) && IsBlock(sc, open, end, neg)
    ensures var (s', t) := Step(sc, s, open);
            t == Goto(if Selects(sc, s, open, neg) then open + 1 else end) && s' == s.(inar := s'.inar)
  {
  }

  /** Where the run is after k turns, while it lasts. */
  function Position(sc: Script, s: State, pc: nat, k: nat): (r: Option<(State, nat)>)
    requires ValidScript(sc) && ValidState(sc, s) && pc <= |sc.nodes|
    ensures r.Some? ==> ValidState(sc, r.value.0) && r.value.1 <= |sc.nodes|
    decreases k
  {
    if k == 0 then Some((s, pc))
    else
      var before := Position(sc, s, pc, k - 1);
      if before.None? || before.value.1 == |sc.nodes| then None
      else
        StepValid(sc, before.value.0, before.value.1);
        var (s', t) := Step(sc, before.value.0, before.value.1);
        if t.Goto? then Some((s', t.pc)) else None
  }

  predicate InBody(r: Option<(State, nat)>, open: nat, end: nat) {
    r.Some? && open < r.value.1 < end
  }

  /** No command outside the block, but its own node, leads into its body. */
  ghost predicate Confined(sc: Script, open: nat, end: nat) {
    forall k :: 0 <= k < |sc.nodes| && !(open < k < end) ==>
      sc.nodes[k].lb1.None? || !(open < sc.nodes[k].lb1.value < end)
  }

  lemma {:induction false} OutsideLeadsOutside(sc: Script, s: State, pc: nat, open: nat, end: nat, neg: bool)
    requires ValidScript(sc) && ValidState(sc, s) && pc < |sc.nodes| && IsBlock(sc, open, end, neg)
    requires Confined(sc, open, end)
    requires !(open < pc < end)
    ensures var t := Step(sc, s, pc).1; t.Goto? && open < t.pc < end ==> pc == open && Selects(sc, s, open, neg)
  {
    if pc == open {
      BlockTurn(sc, s, open, end, neg);
    }
  }

  /**
   * A run that starts outside a block nothing jumps into is in its body only when it has come through the block's
   * node on a line the block's address, or its negation, selects, and has stayed in the body since.
   */
  lemma {:induction false} EntersByAddress(sc: Script, s: State, pc: nat, k: nat, open: nat, end: nat, neg: bool)
    returns (j: nat)
    requires ValidScript(sc) && ValidState(sc, s) && pc <= |sc.nodes| && IsBlock(sc, open, end, neg)
    requires Confined(sc, open, end)
    requires !(open < pc < end) && InBody(Position(sc, s, pc, k), open, end)
    ensures j < k && var r := Position(sc, s, pc, j); r.Some? && r.value.1 == open && Selects(sc, r.value.0, open, neg)
    ensures forall i :: j < i <= k ==> InBody(Position(sc, s, pc, i), open, end)
    decreases k
  {
    hide Step, Selects, Confined, IsBlock;
    var before := Position(sc, s, pc, k - 1);
    assert k > 0 && before.Some? && before.value.1 < |sc.nodes|;
    if InBody(before, open, end) {
      j := EntersByAddress(sc, s, pc, k - 1, open, end, neg);
    } else {
      OutsideLeadsOutside(sc, before.value.0, before.value.1, open, end, neg);
      j := k - 1;
    }
  }

  // ----- over any number of lines -----

  predicate Within(open: nat, end: nat, pc: nat) {
    open < pc < end
  }

  /** Every command of the body comes behind another one of it, or behind the block's node on a line it selects. */
  ghost predicate Entered(sc: Script, trace: seq<Point>, open: nat, end: nat, neg: bool)
    requires ValidScript(sc) && Sound(sc, trace) && open < |sc.nodes|
  {
    forall k :: 0 < k < |trace| && Within(open, end, trace[k].pc) ==> From(sc, trace[k - 1], open, end, neg)
  }

  predicate From(sc: Script, p: Point, open: nat, end: nat, neg: bool)
    requires ValidScript(sc) && ValidState(sc, p.s) && p.pc < |sc.nodes| && open < |sc.nodes|
  {
    Within(open, end, p.pc) || (p.pc == open && Selects(sc, p.s, open, neg))
  }

  lemma EnteredJoins(sc: Script, a: seq<Point>, b: seq<Point>, open: nat, end: nat, neg: bool)
    requires ValidScript(sc) && Sound(sc, a) && Sound(sc, b) && open < |sc.nodes|
    requires Entered(sc, a, open, end, neg) && Entered(sc, b, open, end, neg)
    requires a != [] && b != [] && Within(open, end, b[0].pc) ==> From(sc, a[|a| - 1], open, end, neg)
    ensures Sound(sc, a + b) && Entered(sc, a + b, open, end, neg)
  {
    var c := a + b;
    forall k | 0 < k < |c| && Within(open, end, c[k].pc)
      ensures From(sc, c[k - 1], open, end, neg)
    {
      if k > |a| {
        assert c[k] == b[k - |a|] && c[k - 1] == b[k - |a| - 1];
      }
    }
  }

  /** A line that stops to wait inside the body stops at one of its commands. */
  lemma SuspendsWithin(sc: Script, s: State, pc: nat, open: nat, end: nat, neg: bool)
    requires ValidScript(sc) && ValidState(sc, s) && pc < |sc.nodes| && IsBlock(sc, open, end, neg)
    ensures var t := Step(sc, s, pc).1; t.Suspend? && Within(open, end, t.next) ==> Within(open, end, pc)
  {
  }

  /** The end of the trace of a line, when the next line goes on inside the body. */
  ghost predicate Leaves(sc: Script, trace: seq<Point>, t: Turn, open: nat, end: nat) {
    t.Suspend? && Within(open, end, t.next) ==> trace != [] && Within(open, end, trace[|trace| - 1].pc)
  }

  lemma {:induction false} LoopEntered(sc: Script, s: State, pc: nat, n: nat, open: nat, end: nat, neg: bool)
    requires ValidScript(sc) && ValidState(sc, s) && pc <= |sc.nodes|
    requires IsBlock(sc, open, end, neg) && Confined(sc, open, end)
    ensures Entered(sc, LoopTrace(sc, s, pc, n), open, end, neg)
    ensures Leaves(sc, LoopTrace(sc, s, pc, n), Loop(sc, s, pc, n).1, open, end)
    decreases n
  {
    hide Step, Selects, Confined, IsBlock, Entered, LoopTrace, Loop, Leaves;
    if pc == |sc.nodes| || n == 0 {
      NothingEntered(sc, s, pc, n, open, end, neg);
    } else {
      LoopTraceOnce(sc, s, pc, n);
      IsInside(sc, open, end, neg);
      var (s', t) := Step(sc, s, pc);
      var here := [Point(s, pc)];
      OneEntered(sc, Point(s, pc), open, end, neg);
      if t.Goto? {
        LoopEntered(sc, s', t.pc, n - 1, open, end, neg);
        if !Within(open, end, pc) {
          OutsideLeadsOutside(sc, s, pc, open, end, neg);
        }
        EnteredJoins(sc, here, LoopTrace(sc, s', t.pc, n - 1), open, end, neg);
        LeavesLater(sc, here, LoopTrace(sc, s', t.pc, n - 1), Loop(sc, s', t.pc, n - 1).1, open, end);
      } else {
        SuspendsWithin(sc, s, pc, open, end, neg);
        LeavesHere(sc, Point(s, pc), t, open, end);
        assert here + [] == here;
      }
    }
  }

  lemma IsInside(sc: Script, open: nat, end: nat, neg: bool)
    requires IsBlock(sc, open, end, neg)
    ensures open < |sc.nodes|
  {
  }

  lemma NothingEntered(sc: Script, s: State, pc: nat, n: nat, open: nat, end: nat, neg: bool)
    requires ValidScript(sc) && ValidState(sc, s) && pc <= |sc.nodes| && (pc == |sc.nodes| || n == 0)
    requires IsBlock(sc, open, end, neg)
    ensures LoopTrace(sc, s, pc, n) == [] && Entered(sc, [], open, end, neg) && !Loop(sc, s, pc, n).1.Suspend?
    ensures Leaves(sc, [], Loop(sc, s, pc, n).1, open, end)
  {
  }

  lemma OneEntered(sc: Script, p: Point, open: nat, end: nat, neg: bool)
    requires ValidScript(sc) && ValidState(sc, p.s) && p.pc < |sc.nodes| && open < |sc.nodes|
    ensures Sound(sc, [p]) && Entered(sc, [p], open, end, neg)
  {
  }

  lemma LeavesHere(sc: Script, p: Point, t: Turn, open: nat, end: nat)
    requires t.Suspend? && Within(open, end, t.next) ==> Within(open, end, p.pc)
    ensures Leaves(sc, [p], t, open, end)
  {
  }

  lemma LeavesLater(sc: Script, a: seq<Point>, b: seq<Point>, t: Turn, open: nat, end: nat)
    requires Leaves(sc, b, t, open, end)
    ensures Leaves(sc, a + b, t, open, end)
  {
    if b != [] {
      assert (a + b)[|a + b| - 1] == b[|b| - 1];
    }
  }

  lemma RunEnteredOnce(sc: Script, m: Machine, line: seq<byte>, last: bool, n: nat, open: nat, end: nat, neg: bool)
    requires ValidScript(sc) && ValidMachine(sc, m) && NulFree(line)
    requires IsBlock(sc, open, end, neg) && Confined(sc, open, end)
    ensures ValidState(sc, Load(m.s, line, last))
    ensures var trace, r := LoopTrace(sc, Load(m.s, line, last), Start(m), n), Execute(sc, m, line, last, n);
            && Entered(sc, trace, open, end, neg)
            && (trace != [] ==> trace[0].pc == Start(m))
            && (r.Some? && Within(open, end, Start(r.value)) ==>
                  trace != [] && Within(open, end, trace[|trace| - 1].pc))
  {
    hide Loop, LoopTrace, Entered, Confined;
    LoopEntered(sc, Load(m.s, line, last), Start(m), n, open, end, neg);
  }

  /**
   * Whatever lines are pushed, and wherever `n` and `N` stop and go on: a command of the body comes behind another one
   * of the body, or behind the block's node on a line the block's address, or its negation, selects.
   */
  lemma {:induction false} RunEntered(sc: Script, m: Machine, lines: seq<seq<byte>>, closed: bool, n: nat,
                                      open: nat, end: nat, neg: bool)
    requires ValidScript(sc) && ValidMachine(sc, m) && Text(lines)
    requires IsBlock(sc, open, end, neg) && Confined(sc, open, end)
    ensures var trace := RunTrace(sc, m, lines, closed, n);
            && Entered(sc, trace, open, end, neg)
            && (trace != [] && Within(open, end, trace[0].pc) ==> Within(open, end, Start(m)))
    decreases |lines|
  {
    hide Entered, LoopTrace, RunTrace, Execute, Confined, Loop;
    IsInside(sc, open, end, neg);
    if lines == [] || m.quit {
      NoRunEntered(sc, m, lines, closed, n, open, end, neg);
    } else {
      var last := closed && |lines| == 1;
      RunTraceOnce(sc, m, lines, closed, n);
      RunEnteredOnce(sc, m, lines[0], last, n, open, end, neg);
      var a, r := LoopTrace(sc, Load(m.s, lines[0], last), Start(m), n), Execute(sc, m, lines[0], last, n);
      if r.Some? {
        RunEntered(sc, r.value, lines[1..], closed, n, open, end, neg);
        var b := RunTrace(sc, r.value, lines[1..], closed, n);
        EnteredJoins(sc, a, b, open, end, neg);
        assert a == [] ==> a + b == b;
      } else {
        assert a + [] == a;
      }
    }
  }

  lemma NoRunEntered(sc: Script, m: Machine, lines: seq<seq<byte>>, closed: bool, n: nat, open: nat, end: nat,
                     neg: bool)
    requires ValidScript(sc) && ValidMachine(sc, m) && Text(lines) && (lines == [] || m.quit) && open < |sc.nodes|
    ensures RunTrace(sc, m, lines, closed, n) == [] && Entered(sc, [], open, end, neg)
  {
  }

  /** So the body is entered through the block's node, on a line it selects, and not left in between. */
  lemma {:induction false} LastEntry(sc: Script, trace: seq<Point>, k: nat, open: nat, end: nat, neg: bool)
    returns (l: nat)
    requires ValidScript(sc) && Sound(sc, trace) && open < |sc.nodes| && Entered(sc, trace, open, end, neg)
    requires k < |trace| && Within(open, end, trace[k].pc) && !Within(open, end, trace[0].pc)
    ensures l < k && trace[l].pc == open && Selects(sc, trace[l].s, open, neg)
    ensures forall j :: l < j <= k ==> Within(open, end, trace[j].pc)
  {
    hide Selects;
    assert From(sc, trace[k - 1], open, end, neg);
    l := k - 1;
    if Within(open, end, trace[k - 1].pc) {
      l := LastEntry(sc, trace, k - 1, open, end, neg);
    }
  }
}
