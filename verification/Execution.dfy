/** The evaluator object: `execute`, `match`, `command` and `arout` on its buffers and flags. */
module Execution {
  import opened Options
  import opened Bytes
  import opened Substitution
  import opened Script
  import opened Evaluation
  import opened PushPull
  import LineList

  class Evaluator {
    const sc: Script
    const ed: Editor
    const lister: LineList.Lister
    const inar: array<bool>
    var holdbuf: seq<byte>
    var lnum: nat
    var dolflag: bool
    var jflag: bool
    var delflag: bool
    var quitflag: bool
    var pending: Option<nat>
    var abuf: seq<seq<byte>>
    var out: seq<byte>

    /** The source has followed a pointer out of its buffer: what it does from here on is not modelled. */
    var wild: bool

    ghost function View(): State
      reads this, ed, inar
    {
      State(ed.linebuf, holdbuf, lnum, dolflag, ed.sflag, abuf, inar[..], out, if wild then None else Some(ed.lsize))
    }

    ghost predicate Valid()
      reads this, ed, ed.vars, inar, lister
    {
      && !wild && ValidScript(sc) && inar.Length == |sc.nodes| && ed.vars.Valid()
      && lister.genbuf.Length > LineList.FOLD + 1
      && ValidState(sc, View()) && (pending.Some? ==> pending.value <= |sc.nodes|)
    }

    /** Neither a jump nor a deletion nor a suspension is under way. */
    ghost predicate Idle()
      reads this
    {
      !jflag && !delflag && pending.None?
    }

    /** `sed_init_eval` */
    constructor (script: Script)
      requires ValidScript(script)
      ensures sc == script && Valid() && Idle() && !quitflag && View() == Initial(script)
      ensures fresh(ed) && fresh(ed.vars) && fresh(lister) && fresh(lister.genbuf) && fresh(inar)
    {
      sc := script;
      ed := new Editor([]);
      lister := new LineList.Lister(INIT_BUF_SIZE);
      inar := new bool[|script.nodes|](_ => false);
      holdbuf, lnum, abuf, out := [], 0, [], [];
      dolflag, jflag, delflag, quitflag, pending := false, false, false, false, None;
      wild := false;
      new;
      assert inar[..] == Initial(script).inar;
    }

    /** `wline` */
    method Wline(buf: seq<byte>)
      modifies this`out
      ensures View() == WriteLine(old(View()), buf)
    {
      out := out + buf + [NEWLINE];
    }

    /** `arout` */
    method Arout()
      modifies this`out, this`abuf
      ensures View() == FlushQueue(old(View()))
    {
      var aptr := 0;
      assert abuf[aptr..] == abuf;
      while aptr < |abuf|
        invariant aptr <= |abuf| && abuf == old(abuf)
        invariant out + WriteAll(abuf[aptr..]) == old(out) + WriteAll(old(abuf))
      {
        assert abuf[aptr..][1..] == abuf[aptr + 1..];
        Wline(abuf[aptr]);
        aptr := aptr + 1;
      }
      abuf := [];
    }

    /** `match` without gf */
    method Match(e: Expr) returns (ok: bool)
      requires Valid() && ValidExpr(e)
      modifies ed.vars, ed`vgen
      ensures ed.vars.Valid() && ok == FirstMatch(e, ed.linebuf).Match?
    {
      FirstCorresponds(e, ed.linebuf, ed.vars.Spans());
      ok := ed.Match(CodeOf(e), false, e);
    }

    /** A command whose range the line before was in. */
    method Inside(pc: nat) returns (yes: bool)
      requires Valid() && pc < |sc.nodes| && inar[pc]
      modifies ed.vars, ed`vgen, inar
      ensures ed.vars.Valid()
      ensures (yes, inar[pc]) == Addressed(sc.nodes[pc], old(View()), true) && inar[..] == old(inar[..])[pc := inar[pc]]
    {
      assert ValidNode(sc.nodes[pc], |sc.nodes|);
      match sc.nodes[pc].ad2.value {
        case Last =>
        case Line(m) =>
          if lnum > m {
            inar[pc] := false;
            return false;
          }
          if lnum == m {
            inar[pc] := false;
          }
        case Matching(e) =>
          var ok := Match(e);
          if ok {
            inar[pc] := false;
          }
      }
      return true;
    }

    /** A command with an address, outside its range. */
    method Begins(pc: nat) returns (yes: bool)
      requires Valid() && pc < |sc.nodes| && !inar[pc] && sc.nodes[pc].ad1.Some?
      modifies ed.vars, ed`vgen, inar
      ensures ed.vars.Valid()
      ensures (yes, inar[pc]) == Addressed(sc.nodes[pc], old(View()), false)
      ensures inar[..] == old(inar[..])[pc := inar[pc]]
    {
      assert ValidNode(sc.nodes[pc], |sc.nodes|);
      match sc.nodes[pc].ad1.value {
        case Last =>
          return dolflag;
        case Line(n) =>
          if lnum != n {
            return false;
          }
          if sc.nodes[pc].ad2.Some? {
            inar[pc] := true;
          }
        case Matching(e) =>
          var ok := Match(e);
          if !ok {
            return false;
          }
          if sc.nodes[pc].ad2.Some? {
            inar[pc] := true;
          }
      }
      return true;
    }

    /** The head of the loop in `execute`: is the command at pc executed on this line? */
    method Selected(pc: nat) returns (go: bool)
      requires Valid() && pc < |sc.nodes|
      modifies ed.vars, ed`vgen, inar
      ensures Valid() && go == Executes(sc.nodes[pc], old(View()), old(inar[pc]))
      ensures inar[..] == old(inar[..])[pc := Addressed(sc.nodes[pc], old(View()), old(inar[pc])).1]
    {
      var yes := true;
      if sc.nodes[pc].ad1.Some? {
        if inar[pc] {
          yes := Inside(pc);
        } else {
          yes := Begins(pc);
        }
      }
      return yes != sc.nodes[pc].negfl;
    }

    // ----- the commands -----

    /** jflag, delflag, pending and quitflag say what the command at pc wants to happen next. */
    ghost predicate Wants(t: Turn, pc: nat, quit: bool)
      requires pc < |sc.nodes|
      reads this
    {
      && quitflag == (quit || t.Halt?)
      && match t
         case Goto(next) =>
           !delflag && pending.None? && if jflag then sc.nodes[pc].lb1 == Some(next) else next == pc + 1
         case EndCycle(delete) =>
           pending.None? && if delete then delflag && !jflag else !delflag && jflag && sc.nodes[pc].lb1.None?
         case Suspend(next) => !delflag && !jflag && pending == Some(next)
         case Halt => !delflag && !jflag && pending.None?
    }

    /** What a command leaves behind, when all pointers have stayed in their buffers. */
    ghost predicate Came(s: State, t: Turn, pc: nat, quit: bool)
      requires pc < |sc.nodes|
      reads this, ed, inar
    {
      if s.lsize.None? then wild else View() == s && Wants(t, pc, quit)
    }

    /** NCOM: `n` */
    method NextLine(pc: nat)
      modifies this, ed
      ensures View() == FlushQueue(AutoPrint(sc, old(View()))).(linebuf := []) && pending == Some(pc + 1)
      ensures jflag == old(jflag) && delflag == old(delflag) && quitflag == old(quitflag)
    {
      if !sc.nflag {
        Wline(ed.linebuf);
      }
      if |abuf| > 0 {
        Arout();
      }
      ed.linebuf := [];
      pending := Some(pc + 1);
    }

    /** CNCOM: `N` */
    method AppendNextLine(pc: nat)
      modifies this, ed
      ensures View() == AppendLine(FlushQueue(old(View())), [NEWLINE]) && pending == Some(pc + 1)
      ensures jflag == old(jflag) && delflag == old(delflag) && quitflag == old(quitflag)
    {
      if |abuf| > 0 {
        Arout();
      }
      ed.AppendToLinebuf([NEWLINE]);
      pending := Some(pc + 1);
    }

    /** CDCOM: `D` */
    method DeleteFirstLine()
      modifies this`jflag, this`delflag, ed
      ensures var before, l := old(View()), FirstLine(old(ed.linebuf));
              if |l| == |before.linebuf| then View() == before && delflag && jflag == old(jflag)
              else View() == CopyLine(before, before.linebuf[|l| + 1..]) && jflag && delflag == old(delflag)
    {
      var p1 := FindNewline();
      if p1 == |ed.linebuf| {
        delflag := true;
        return;
      }
      ed.CopyToLinebuf(ed.linebuf[p1 + 1..]);
      jflag := true;
    }

    /** The scan for the end of the first line in CDCOM, CPCOM and SCOM. */
    method FindNewline() returns (p1: nat)
      ensures p1 == |FirstLine(ed.linebuf)| && ed.linebuf[..p1] == FirstLine(ed.linebuf)
    {
      p1 := 0;
      while p1 < |ed.linebuf| && ed.linebuf[p1] != NEWLINE
        invariant p1 <= |ed.linebuf| && forall k :: 0 <= k < p1 ==> ed.linebuf[k] != NEWLINE
      {
        p1 := p1 + 1;
      }
      FirstLineIs(ed.linebuf, p1);
    }

    /** LCOM: `l` */
    method ListLine()
      requires NulFree(ed.linebuf) && lister.genbuf.Length > LineList.FOLD + 1
      modifies this`out, lister, lister.genbuf
      ensures View() == old(View()).(out := old(out) + LineList.Listing(old(ed.linebuf)))
    {
      lister.out := out;
      lister.List(ed.linebuf);
      out := lister.out;
    }

    /** YCOM: `y` */
    method TranslateLine(table: seq<byte>)
      requires |table| == 256
      modifies ed
      ensures View() == old(View()).(linebuf := Mapped(old(ed.linebuf), table))
    {
      var p1 := 0;
      while p1 < |ed.linebuf|
        invariant p1 <= |ed.linebuf| == |old(ed.linebuf)| && ed.sflag == old(ed.sflag) && ed.lsize == old(ed.lsize)
        invariant forall k :: 0 <= k < p1 ==> ed.linebuf[k] == table[old(ed.linebuf)[k]]
        invariant forall k :: p1 <= k < |ed.linebuf| ==> ed.linebuf[k] == old(ed.linebuf)[k]
      {
        ed.linebuf := ed.linebuf[p1 := table[ed.linebuf[p1]]];
        p1 := p1 + 1;
      }
      assert ed.linebuf == Mapped(old(ed.linebuf), table);
    }

    /** QCOM: `q` */
    method QuitNow()
      modifies this
      ensures View() == FlushQueue(AutoPrint(sc, old(View()))) && quitflag
      ensures jflag == old(jflag) && delflag == old(delflag) && pending == old(pending)
    {
      if !sc.nflag {
        Wline(ed.linebuf);
      }
      if |abuf| > 0 {
        Arout();
      }
      quitflag := true;
    }

    /** SCOM: `s` */
    method SubstituteLine(e: Expr, rhs: seq<byte>, gfl: nat, pfl: nat)
      requires Valid() && ValidCommand(Subst(e, rhs, gfl, pfl))
      modifies this`out, this`wild, ed, ed.vars
      ensures ed.vars.Valid()
      ensures var s := Substituting(sc, old(View()), e, rhs, gfl, pfl); if s.lsize.None? then wild else View() == s
    {
      var i, stale := ed.Substitute(CodeOf(e), rhs, gfl, e);
      if stale {
        wild := true;
        return;
      }
      if pfl != 0 && sc.nflag && i {
        if pfl == 1 {
          Wline(ed.linebuf);
        } else {
          var p1 := FindNewline();
          Wline(ed.linebuf[..p1]);
        }
      }
    }

    /** The commands that print or queue text. */
    method TextCommand(pc: nat)
      requires Valid() && Idle() && pc < |sc.nodes|
      requires var c := sc.nodes[pc].command;
               c.Append? || c.Change? || c.Insert? || c.Number? || c.Print? || c.PrintFirst? || c.List?
      modifies this, lister, lister.genbuf
      ensures var (s, t) := Act(sc, old(View()), pc); Came(s, t, pc, old(quitflag))
    {
      hide Substituting, Mapped, FlushQueue, AutoPrint, FirstLine, Decimal, Jump, CopyLine, AppendLine;
      hide LineList.Listing;
      match sc.nodes[pc].command
      case Append(t) =>
        if |abuf| < QUEUE {
          abuf := abuf + [t];
          wild := |abuf| == QUEUE;
        }
      case Change(t) =>
        delflag := true;
        if !inar[pc] || dolflag {
          Wline(t);
        }
      case Insert(t) => Wline(t);
      case Number => Wline(Decimal(lnum));
      case Print => Wline(ed.linebuf);
      case PrintFirst =>
        var p1 := FindNewline();
        Wline(ed.linebuf[..p1]);
      case List => ListLine();
    }

    /** The commands that copy between the line and the hold buffer. */
    method HoldCommand(pc: nat)
      requires Valid() && Idle() && pc < |sc.nodes|
      requires var c := sc.nodes[pc].command; c.Get? || c.GetAppend? || c.Hold? || c.HoldAppend?
      modifies this, ed
      ensures var (s, t) := Act(sc, old(View()), pc); Came(s, t, pc, old(quitflag))
    {
      hide Substituting, Mapped, FlushQueue, AutoPrint, WriteLine, FirstLine, Decimal, LineList.Listing, Queue, Jump;
      hide ValidNode, ValidCommand;
      match sc.nodes[pc].command
      case Get => ed.CopyToLinebuf(holdbuf);
      case GetAppend =>
        ed.AppendToLinebuf([NEWLINE]);
        ed.AppendToLinebuf(holdbuf);
      case Hold => holdbuf := ed.linebuf;
      case HoldAppend => holdbuf := holdbuf + [NEWLINE] + ed.linebuf;
    }

    /** The commands that edit the line. */
    method EditCommand(pc: nat)
      requires Valid() && Idle() && pc < |sc.nodes|
      requires var c := sc.nodes[pc].command; c.Translate? || c.Subst?
      modifies this, ed, ed.vars
      ensures ed.vars.Valid()
      ensures var (s, t) := Act(sc, old(View()), pc); Came(s, t, pc, old(quitflag))
    {
      hide Substituting, Mapped, FlushQueue, AutoPrint, WriteLine, FirstLine, Decimal, LineList.Listing, Queue, Jump;
      assert ValidNode(sc.nodes[pc], |sc.nodes|);
      match sc.nodes[pc].command
      case Translate(table) => TranslateLine(table);
      case Subst(e, rhs, gfl, pfl) => SubstituteLine(e, rhs, gfl, pfl);
    }

    /** The commands that change what is executed next. */
    method FlowCommand(pc: nat)
      requires Valid() && Idle() && pc < |sc.nodes|
      requires var c := sc.nodes[pc].command;
               c.Branch? || c.Test? || c.Delete? || c.DeleteFirst? || c.Next? || c.NextAppend? || c.Quit?
      modifies this, ed
      ensures var (s, t) := Act(sc, old(View()), pc); View() == s && Wants(t, pc, old(quitflag))
    {
      hide Substituting, Mapped, FlushQueue, AutoPrint, WriteLine, FirstLine, Decimal, Queue, Substituted;
      hide LineList.Listing;
      assert ValidNode(sc.nodes[pc], |sc.nodes|);
      match sc.nodes[pc].command
      case Branch => jflag := true;
      case Test =>
        if ed.sflag {
          ed.sflag := false;
          jflag := true;
        }
      case Delete => delflag := true;
      case DeleteFirst => DeleteFirstLine();
      case Next => NextLine(pc);
      case NextAppend => AppendNextLine(pc);
      case Quit => QuitNow();
    }

    /** `command` */
    method Command(pc: nat)
      requires Valid() && Idle() && pc < |sc.nodes|
      modifies this, ed, ed.vars, lister, lister.genbuf
      ensures var (s, t) := Act(sc, old(View()), pc); Came(s, t, pc, old(quitflag)) && (s.lsize.Some? ==> Valid())
    {
      ActValid(sc, View(), pc);
      ActTurn(sc, View(), pc);
      var c := sc.nodes[pc].command;
      if c.Append? || c.Change? || c.Insert? || c.Number? || c.Print? || c.PrintFirst? || c.List? {
        TextCommand(pc);
      } else if c.Get? || c.GetAppend? || c.Hold? || c.HoldAppend? {
        HoldCommand(pc);
      } else if c.Translate? || c.Subst? {
        EditCommand(pc);
      } else {
        FlowCommand(pc);
      }
    }

    // ----- the loop -----

    ghost function AsMachine(): Machine
      reads this, ed, inar
    {
      Machine(View(), pending, quitflag)
    }

    /** The body of the loop in `execute` up to the tests of the flags. */
    method Consider(pc: nat) returns (go: bool)
      requires Valid() && Idle() && pc < |sc.nodes|
      modifies this, ed, ed.vars, inar, lister, lister.genbuf
      ensures go == Executes(sc.nodes[pc], old(View()), old(inar[pc])) && (!go ==> Idle() && quitflag == old(quitflag))
      ensures var (s, t) := Evaluation.Step(sc, old(View()), pc);
              && (s.lsize.Some? ==> Valid())
              && if go then Came(s, t, pc, old(quitflag)) else Valid() && View() == s && t == Goto(pc + 1)
    {
      go := Selected(pc);
      if go {
        Command(pc);
      }
    }

    /** The loop has been left, with the flags as t wants them. */
    ghost predicate Left(t: Turn)
      reads this
    {
      match t
      case Goto(_) => false
      case EndCycle(delete) => !quitflag && pending.None? && !jflag && delflag == delete
      case Suspend(next) => !quitflag && pending == Some(next) && !jflag && !delflag
      case Halt => quitflag && pending.None? && !jflag && !delflag
    }

    /** The body of the loop in `execute`: go on at ipc, fall out of the loop, or return. */
    method OneTurn(pc: nat) returns (more: bool, ipc: nat, fell: bool)
      requires Valid() && Idle() && pc < |sc.nodes|
      modifies this, ed, ed.vars, inar, lister, lister.genbuf
      ensures var s := Evaluation.Step(sc, old(View()), pc).0;
              if s.lsize.None? then wild && !more else Valid() && View() == s
      ensures more ==> Idle() && quitflag == old(quitflag) && Evaluation.Step(sc, old(View()), pc).1 == Goto(ipc)
      ensures !more && !old(quitflag) && !wild ==>
                var t := Evaluation.Step(sc, old(View()), pc).1; Left(t) && fell == t.EndCycle?
      ensures old(quitflag) && !wild ==>
                && quitflag && more != Executes(sc.nodes[pc], old(View()), old(inar[pc]))
                && if more then ipc == pc + 1 else !fell
    {
      var go := Consider(pc);
      if go {
        if wild || quitflag || pending.Some? {
          return false, pc, false;
        }
        if delflag {
          return false, pc, true;
        }
        if jflag {
          jflag := false;
          if sc.nodes[pc].lb1.None? {
            return false, 0, true;
          }
          return true, sc.nodes[pc].lb1.value, false;
        }
      }
      return true, pc + 1, false;
    }

    /** The end of a cycle. */
    method FinishCycle()
      requires Valid()
      modifies this, ed
      ensures View() == Finish(sc, old(View()), old(delflag)) && !delflag
      ensures jflag == old(jflag) && quitflag == old(quitflag) && pending == old(pending)
    {
      if !sc.nflag && !delflag {
        Wline(ed.linebuf);
      }
      if |abuf| > 0 {
        Arout();
      }
      delflag := false;
      ed.linebuf := [];
    }

    /**
     * The loop of `execute`: it comes to its end within n turns, or at the first command executed when `q` has been
     * seen, or where a pointer leaves its buffer.
     */
    method RunCommands(start: nat, ghost n: nat) returns (fell: bool)
      requires Valid() && Idle() && start <= |sc.nodes|
      requires !quitflag ==> var (s, t) := Loop(sc, View(), start, n); t.Goto? ==> s.lsize.None?
      modifies this, ed, ed.vars, inar, lister, lister.genbuf
      ensures !old(quitflag) ==>
                var (s, t) := Loop(sc, old(View()), start, n);
                if s.lsize.None? then wild else Valid() && View() == s && Left(t) && fell == t.EndCycle?
      ensures old(quitflag) ==>
                var (s, f) := LoopAfterQuit(sc, old(View()), start);
                if s.lsize.None? then wild else Valid() && quitflag && View() == s && fell == f && (fell ==> Idle())
    {
      ghost var end, endAfterQuit := Loop(sc, View(), start, n), LoopAfterQuit(sc, View(), start);
      var ipc: nat := start;
      ghost var left: nat := n;
      while ipc < |sc.nodes|
        invariant Valid() && Idle() && ipc <= |sc.nodes| && quitflag == old(quitflag)
        invariant !quitflag ==> Loop(sc, View(), ipc, left) == end
        invariant quitflag ==> LoopAfterQuit(sc, View(), ipc) == endAfterQuit
        decreases if quitflag then |sc.nodes| - ipc else left
      {
        StepValid(sc, View(), ipc);
        if !quitflag {
          LoopOnce(sc, View(), ipc, left);
        }
        ghost var (s, t) := Evaluation.Step(sc, View(), ipc);
        if s.lsize.None? {
          LostAtOnce(ipc, left);
        }
        var more;
        more, ipc, fell := OneTurn(ipc);
        if !more {
          return;
        }
        left := if left == 0 then 0 else left - 1;
      }
      fell := true;
    }

    lemma LostAtOnce(pc: nat, left: nat)
      requires Valid() && pc < |sc.nodes| && Evaluation.Step(sc, View(), pc).0.lsize.None? && (!quitflag ==> left > 0)
      ensures !quitflag ==> Loop(sc, View(), pc, left).0.lsize.None?
      ensures quitflag ==> LoopAfterQuit(sc, View(), pc).0.lsize.None?
    {
      StepValid(sc, View(), pc);
      var (s, t) := Evaluation.Step(sc, View(), pc);
      if !quitflag && t.Goto? {
        LoopLost(sc, s, t.pc, left - 1);
      }
    }

    /** `execute`, with the new line in the line buffer. */
    method Execute(ghost n: nat)
      requires Valid() && !jflag && !delflag && (quitflag ==> pending.None?)
      requires !quitflag ==>
                 var (s, t) := Loop(sc, View().(lnum := lnum + 1, sflag := false), Start(AsMachine()), n);
                 t.Goto? ==> s.lsize.None?
      modifies this, ed, ed.vars, inar, lister, lister.genbuf
      ensures !old(quitflag) ==>
                var (s, t) := Loop(sc, old(View()).(lnum := old(lnum) + 1, sflag := false), Start(old(AsMachine())), n);
                if s.lsize.None? then wild else Valid() && !jflag && !delflag && AsMachine() == Settle(sc, s, t)
      ensures old(quitflag) ==>
                var s := ExecuteAfterQuit(sc, old(View()).(lnum := old(lnum) + 1, sflag := false));
                if s.lsize.None? then wild else Valid() && quitflag && View() == s
    {
      var ipc := 0;
      lnum := lnum + 1;
      ed.sflag := false;
      if pending.Some? {
        ipc := pending.value;
        pending := None;
      }
      var fell := RunCommands(ipc, n);
      if !wild && fell {
        FinishCycle();
      }
    }
  }
}
