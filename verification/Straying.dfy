/** When a run follows a pointer out of its buffer: at which commands, on which inputs. */
module Straying {
  import opened Options
  import opened Bytes
  import opened MatchSpec
  import opened MatchFacts
  import opened Script
  import opened Substitution
  import opened Evaluation
  import opened PushPull
  import opened Chunks
  import opened LineRoom
  import opened Traces
  import LineList

  /**
   * The `a` that takes the last place of the queue, or an `s` with a flag one of whose passes writes a line too long
   * for the line buffer.
   */
  predicate TooMuch(sc: Script, s: State, pc: nat)
    requires ValidScript(sc) && ValidState(sc, s) && pc < |sc.nodes|
  {
    match sc.nodes[pc].command
    case Append(_) => |s.abuf| == QUEUE - 1
    case Subst(e, rhs, gfl, _) => gfl != 0 && s.lsize.Some? && !AllFit(e, s.linebuf, rhs, gfl, s.lsize.value)
    case _ => false
  }

  /** Such a command, and one that is executed. */
  predicate Straying(sc: Script, s: State, pc: nat)
    requires ValidScript(sc) && ValidState(sc, s) && pc < |sc.nodes|
  {
    Executes(sc.nodes[pc], s, s.inar[pc]) && TooMuch(sc, s, pc)
  }

  lemma StepStrays(sc: Script, s: State, pc: nat)
    requires ValidScript(sc) && ValidState(sc, s) && pc < |sc.nodes|
    ensures Step(sc, s, pc).0.lsize.None? <==> s.lsize.None? || Straying(sc, s, pc)
  {
    hide Act, ValidExpr, Consumes, AllFit, Addressed, Straying;
    var n := sc.nodes[pc];
    var s' := s.(inar := s.inar[pc := Addressed(n, s, s.inar[pc]).1]);
    if Executes(n, s, s.inar[pc]) {
      ExecutedStrays(sc, s, pc);
      ActSize(sc, s', pc);
    } else {
      PassedOver(sc, s, pc);
    }
  }

  /** What the command does to the size of the line buffer. */
  lemma ActSize(sc: Script, s: State, pc: nat)
    requires ValidScript(sc) && ValidState(sc, s) && pc < |sc.nodes|
    ensures Act(sc, s, pc).0.lsize.None? <==> s.lsize.None? || TooMuch(sc, s, pc)
  {
    hide Substituted, Substitution.Matches, Replaces, AllFit, Grown, FirstLine, Decimal, Mapped, WriteAll;
    hide LineList.Listing;
    match sc.nodes[pc].command {
      case Subst(e, rhs, gfl, pfl) => FlaggedSize(e, s.linebuf, rhs, gfl, s.lsize);
      case Append(_) =>
      case DeleteFirst =>
      case Next =>
      case NextAppend =>
      case Quit =>
      case Test =>
      case _ =>
    }
  }

  lemma FlaggedSize(e: Expr, line: seq<byte>, rhs: seq<byte>, flag: nat, size: Option<nat>)
    requires ValidExpr(e) && ValidTemplate(rhs, Groups(e.prog)) && (flag == 0 || e.circf || Consumes(e.prog))
    ensures SizeAfter(e, line, rhs, flag, size).None?
            <==> size.None? || (flag != 0 && !AllFit(e, line, rhs, flag, size.value))
  {
  }

  lemma ExecutedStrays(sc: Script, s: State, pc: nat)
    requires ValidScript(sc) && ValidState(sc, s) && pc < |sc.nodes| && Executes(sc.nodes[pc], s, s.inar[pc])
    ensures var s' := s.(inar := s.inar[pc := Addressed(sc.nodes[pc], s, s.inar[pc]).1]);
            ValidState(sc, s') && (Straying(sc, s, pc) <==> TooMuch(sc, s', pc))
  {
  }

  lemma PassedOver(sc: Script, s: State, pc: nat)
    requires ValidScript(sc) && ValidState(sc, s) && pc < |sc.nodes| && !Executes(sc.nodes[pc], s, s.inar[pc])
    ensures !Straying(sc, s, pc)
  {
  }

  ghost predicate StraysAlong(sc: Script, trace: seq<Point>)
    requires ValidScript(sc) && Sound(sc, trace)
  {
    exists k :: 0 <= k < |trace| && Straying(sc, trace[k].s, trace[k].pc)
  }

  lemma Along(sc: Script, a: seq<Point>, b: seq<Point>)
    requires ValidScript(sc) && Sound(sc, a) && Sound(sc, b)
    ensures Sound(sc, a + b) && (StraysAlong(sc, a + b) <==> StraysAlong(sc, a) || StraysAlong(sc, b))
  {
    var c := a + b;
    forall k | 0 <= k < |c|
      ensures c[k] == if k < |a| then a[k] else b[k - |a|]
    {
    }
    if k :| 0 <= k < |a| && Straying(sc, a[k].s, a[k].pc) {
      assert c[k] == a[k];
    }
    if k :| 0 <= k < |b| && Straying(sc, b[k].s, b[k].pc) {
      assert c[k + |a|] == b[k];
    }
  }

  lemma Alone(sc: Script, p: Point)
    requires ValidScript(sc) && ValidState(sc, p.s) && p.pc < |sc.nodes|
    ensures Sound(sc, [p]) && (StraysAlong(sc, [p]) <==> Straying(sc, p.s, p.pc))
  {
    if Straying(sc, p.s, p.pc) {
      assert [p][0] == p;
    }
  }

  /** The loop of `execute` follows a pointer out of its buffer exactly if it comes to a command that does. */
  lemma {:induction false} LoopStrays(sc: Script, s: State, pc: nat, n: nat)
    requires ValidScript(sc) && ValidState(sc, s) && pc <= |sc.nodes|
    ensures Loop(sc, s, pc, n).0.lsize.None? <==> s.lsize.None? || StraysAlong(sc, LoopTrace(sc, s, pc, n))
    decreases n
  {
    hide Step, Straying, StraysAlong, Loop, LoopTrace;
    if pc == |sc.nodes| || n == 0 {
      NoLoop(sc, s, pc, n);
    } else {
      LoopTraceOnce(sc, s, pc, n);
      StepStrays(sc, s, pc);
      Alone(sc, Point(s, pc));
      var (s', t) := Step(sc, s, pc);
      if t.Goto? {
        LoopStrays(sc, s', t.pc, n - 1);
        Along(sc, [Point(s, pc)], LoopTrace(sc, s', t.pc, n - 1));
      } else {
        assert [Point(s, pc)] + [] == [Point(s, pc)];
      }
    }
  }

  lemma NoLoop(sc: Script, s: State, pc: nat, n: nat)
    requires ValidScript(sc) && ValidState(sc, s) && pc <= |sc.nodes| && (pc == |sc.nodes| || n == 0)
    ensures Loop(sc, s, pc, n).0 == s && LoopTrace(sc, s, pc, n) == [] && !StraysAlong(sc, [])
  {
  }

  lemma LineStrays(sc: Script, m: Machine, line: seq<byte>, last: bool, n: nat)
    requires ValidScript(sc) && ValidMachine(sc, m) && NulFree(line) && Execute(sc, m, line, last, n).Some?
    ensures var s, r := Load(m.s, line, last), Execute(sc, m, line, last, n).value;
            r.s.lsize.None? <==> m.s.lsize.None? || StraysAlong(sc, LoopTrace(sc, s, Start(m), n))
  {
    hide Loop, LoopTrace, StraysAlong;
    LoopStrays(sc, Load(m.s, line, last), Start(m), n);
  }

  /**
   * Over every run: a pointer is followed out of its buffer exactly if the run comes to an `a` that takes the last
   * place of the queue, or to an `s` with a flag that makes the line outgrow its buffer.
   */
  lemma {:induction false} RunStrays(sc: Script, m: Machine, lines: seq<seq<byte>>, closed: bool, n: nat)
    requires ValidScript(sc) && ValidMachine(sc, m) && Text(lines) && Push(sc, m, lines, closed, n).Some?
    ensures Push(sc, m, lines, closed, n).value.s.lsize.None?
            <==> m.s.lsize.None? || StraysAlong(sc, RunTrace(sc, m, lines, closed, n))
    decreases |lines|
  {
    hide Straying, StraysAlong, Loop, LoopTrace, RunTrace, Execute, Push;
    if lines == [] || m.quit {
      NoRun(sc, m, lines, closed, n);
    } else {
      var last := closed && |lines| == 1;
      RunTraceOnce(sc, m, lines, closed, n);
      LineStrays(sc, m, lines[0], last, n);
      var r := Execute(sc, m, lines[0], last, n).value;
      RunStrays(sc, r, lines[1..], closed, n);
      Along(sc, LoopTrace(sc, Load(m.s, lines[0], last), Start(m), n), RunTrace(sc, r, lines[1..], closed, n));
    }
  }

  lemma NoRun(sc: Script, m: Machine, lines: seq<seq<byte>>, closed: bool, n: nat)
    requires ValidScript(sc) && ValidMachine(sc, m) && Text(lines) && (lines == [] || m.quit)
    ensures Push(sc, m, lines, closed, n) == Some(m) && RunTrace(sc, m, lines, closed, n) == [] && !StraysAlong(sc, [])
  {
  }

  // ----- pieces of input -----

  /** The commands executed when a piece arrives behind the text: the lines known not to be the last. */
  ghost function PieceTrace(sc: Script, text: seq<byte>, piece: seq<byte>, n: nat, size: nat): (trace: seq<Point>)
    requires ValidScript(sc) && NulFree(text) && NulFree(piece) && Reached(sc, text, n).Some?
    ensures Sound(sc, trace)
  {
    if piece == [] then []
    else
      ReachedMore(sc, text, piece, n);
      RunTrace(sc, Sized(Reached(sc, text, n).value, Some(size)), AheadOnto(Held(text), piece), false, n)
  }

  lemma PieceStrays(sc: Script, text: seq<byte>, piece: seq<byte>, n: nat, size: nat)
    requires ValidScript(sc) && NulFree(text) && NulFree(piece) && piece != []
    requires Reached(sc, text, n).Some? && Arrived(sc, text, piece, n, size).Some?
    ensures Arrived(sc, text, piece, n, size).value.s.lsize.None?
            <==> StraysAlong(sc, PieceTrace(sc, text, piece, n, size))
  {
    hide Push, RunTrace, StraysAlong, Ahead, Held;
    ReachedMore(sc, text, piece, n);
    RunStrays(sc, Sized(Reached(sc, text, n).value, Some(size)), AheadOnto(Held(text), piece), false, n);
  }

  /** What all pieces before have left behind, and the commands executed when piece k arrives. */
  ghost predicate StraysAt(sc: Script, pieces: seq<seq<byte>>, k: nat, n: nat)
    requires ValidScript(sc) && Text(pieces) && k < |pieces|
  {
    var text, size := Joined(pieces[..k]), Fed(sc, pieces[..k], n);
    && size.Some? && Reached(sc, text, n).Some?
    && StraysAlong(sc, PieceTrace(sc, text, pieces[k], n, size.value))
  }

  lemma FedStep(sc: Script, pieces: seq<seq<byte>>, k: nat, n: nat)
    requires ValidScript(sc) && Text(pieces) && k < |pieces|
    requires Reached(sc, Joined(pieces[..k]), n).Some? && Reached(sc, Joined(pieces[..k + 1]), n).Some?
    ensures Fed(sc, pieces[..k + 1], n).None? <==> Fed(sc, pieces[..k], n).None? || StraysAt(sc, pieces, k, n)
  {
    hide Push, Reached, Joined, StraysAlong, PieceTrace, Fed, Ahead, Held, Arrived, SizeArrived;
    var text, size, piece := Joined(pieces[..k]), Fed(sc, pieces[..k], n), pieces[k];
    FedOnce(sc, pieces, k, n);
    if size.Some? {
      if piece == [] {
        NoPiece(sc, text, n, size.value);
      } else {
        PieceJoined(pieces, k);
        Arrives(sc, text, piece, n, size.value);
        PieceStrays(sc, text, piece, n, size.value);
      }
    }
  }

  lemma NoPiece(sc: Script, text: seq<byte>, n: nat, size: nat)
    requires ValidScript(sc) && NulFree(text) && Reached(sc, text, n).Some?
    ensures !StraysAlong(sc, PieceTrace(sc, text, [], n, size))
  {
  }

  /** When the text and the piece get through, the piece arrives, whatever the size of the line buffer. */
  lemma Arrives(sc: Script, text: seq<byte>, piece: seq<byte>, n: nat, size: nat)
    requires ValidScript(sc) && NulFree(text) && NulFree(piece) && piece != []
    requires Reached(sc, text, n).Some? && Reached(sc, text + piece, n).Some?
    ensures var r := Arrived(sc, text, piece, n, size);
            r.Some? && (SizeArrived(sc, text, piece, n, size).None? ==> r.value.s.lsize.None?)
  {
    hide Push, Ahead, Held;
    var m := Reached(sc, text, n).value;
    ReachedMore(sc, text, piece, n);
    PushAlike(sc, m, Sized(m, Some(size)), AheadOnto(Held(text), piece), false, n);
  }

  /** While pieces are fed, a pointer leaves its buffer exactly if it does so when one of them arrives. */
  lemma {:induction false} FedStrays(sc: Script, pieces: seq<seq<byte>>, j: nat, n: nat)
    requires ValidScript(sc) && Text(pieces) && j <= |pieces|
    requires forall k :: 0 <= k <= j ==> Reached(sc, Joined(pieces[..k]), n).Some?
    ensures Fed(sc, pieces[..j], n).None? <==> exists k :: 0 <= k < j && StraysAt(sc, pieces, k, n)
  {
    hide StraysAt, Reached, Joined, Fed;
    if j == 0 {
      NothingFed(sc, pieces, n);
    } else {
      FedStrays(sc, pieces, j - 1, n);
      FedStep(sc, pieces, j - 1, n);
    }
  }

  /** The commands executed on the last line. */
  ghost function LastTrace(sc: Script, text: seq<byte>, n: nat, size: nat): (trace: seq<Point>)
    requires ValidScript(sc) && NulFree(text) && Reached(sc, text, n).Some?
    ensures Sound(sc, trace)
  {
    var m := Reached(sc, text, n).value;
    if text == [] || m.quit then []
    else
      LinesNulFree(text);
      LoopTrace(sc, Load(Sized(m, Some(size)).s, Trimmed(Held(text)), true), Start(m), n)
  }

  lemma LastStrays(sc: Script, text: seq<byte>, n: nat, size: nat)
    requires ValidScript(sc) && NulFree(text) && Reached(sc, text, n).Some? && Ending(sc, text, n, size).Some?
    ensures text != [] && !Reached(sc, text, n).value.quit && Ending(sc, text, n, size).value.s.lsize.None?
            <==> StraysAlong(sc, LastTrace(sc, text, n, size))
  {
    hide Push, LoopTrace, Ahead, Held, Execute;
    var m := Reached(sc, text, n).value;
    if text != [] && !m.quit {
      LinesNulFree(text);
      LineStrays(sc, Sized(m, Some(size)), Trimmed(Held(text)), true, n);
    }
  }

  /**
   * Feeding a file in pieces follows a pointer out of its buffer exactly if, when one of the pieces arrives or on the
   * last line, an `a` is executed that takes the last place of the queue, or an `s` with a flag that makes the line
   * outgrow its buffer.
   */
  lemma FileStrays(sc: Script, pieces: seq<seq<byte>>, n: nat)
    requires ValidScript(sc) && Text(pieces) && Pushed(sc, Joined(pieces), n).Some?
    ensures Reached(sc, Joined(pieces), n).Some?
    ensures Strays(sc, pieces, n)
            <==> (exists k :: 0 <= k < |pieces| && StraysAt(sc, pieces, k, n))
                 || (Fed(sc, pieces, n).Some?
                     && StraysAlong(sc, LastTrace(sc, Joined(pieces), n, Fed(sc, pieces, n).value)))
  {
    hide StraysAt, Reached, Pushed, Joined, Fed, Ending, LastTrace, StraysAlong;
    ReachedOfPushed(sc, Joined(pieces), n);
    forall k | 0 <= k <= |pieces|
      ensures Reached(sc, Joined(pieces[..k]), n).Some?
    {
      Prefix(sc, pieces, k, n);
    }
    assert pieces[..|pieces|] == pieces;
    FedStrays(sc, pieces, |pieces|, n);
    var size := Fed(sc, pieces, n);
    if size.Some? {
      Ends(sc, Joined(pieces), n, size.value);
      LastStrays(sc, Joined(pieces), n, size.value);
    }
  }

  lemma Prefix(sc: Script, pieces: seq<seq<byte>>, k: nat, n: nat)
    requires ValidScript(sc) && Text(pieces) && k <= |pieces| && Pushed(sc, Joined(pieces), n).Some?
    ensures Reached(sc, Joined(pieces[..k]), n).Some?
  {
    hide Reached, Pushed, Joined;
    JoinedAppend(pieces[..k], pieces[k..]);
    assert pieces[..k] + pieces[k..] == pieces;
    ReachedBefore(sc, Joined(pieces[..k]), Joined(pieces[k..]), n);
  }

  lemma Ends(sc: Script, text: seq<byte>, n: nat, size: nat)
    requires ValidScript(sc) && NulFree(text) && Reached(sc, text, n).Some? && Pushed(sc, text, n).Some?
    ensures Ending(sc, text, n, size).Some?
  {
    hide Push, Execute, Ahead, Held;
    PushedLast(sc, text, n);
    LinesNulFree(text);
    var m := Reached(sc, text, n).value;
    if text != [] && !m.quit {
      ExecuteAlike(sc, m, Sized(m, Some(size)), Trimmed(Held(text)), true, n);
    }
  }

  // ----- twenty texts queued -----

  const HELLO: seq<byte> := [104, 105]

  /** Nothing but `a`, so many times. */
  function ManyAppends(count: nat): (sc: Script)
    ensures |sc.nodes| == count
    ensures forall k :: 0 <= k < count ==> sc.nodes[k] == Node(None, None, false, Append(HELLO), None)
    ensures ValidScript(sc)
  {
    Script(seq(count, _ => Node(None, None, false, Append(HELLO), None)), false)
  }

  lemma {:induction false} AppendsAhead(count: nat, s: State, pc: nat)
    requires ValidState(ManyAppends(count), s) && pc <= count && |s.abuf| == pc < QUEUE && s.lsize.Some?
    ensures Loop(ManyAppends(count), s, pc, count - pc).0.lsize.None? <==> count >= QUEUE
    decreases count - pc
  {
    var sc := ManyAppends(count);
    if pc < count {
      StepValid(sc, s, pc);
      var (s', t) := Step(sc, s, pc);
      assert t == Goto(pc + 1) && |s'.abuf| == pc + 1;
      if pc + 1 == QUEUE {
        LoopLost(sc, s', pc + 1, count - pc - 1);
      } else {
        AppendsAhead(count, s', pc + 1);
      }
    }
  }

  /** On its first line a script of twenty `a` or more writes behind the queue; one of nineteen or fewer does not. */
  lemma TwentyAppends(count: nat, line: seq<byte>)
    requires NulFree(line)
    ensures var sc := ManyAppends(count);
            Loop(sc, Load(Initial(sc), line, false), 0, count).0.lsize.None? <==> count >= 20
  {
    AppendsAhead(count, Load(Initial(ManyAppends(count)), line, false), 0);
  }

  // ----- scripts with an `a` that never leave their buffers -----

  /** No `s` has a flag, and every command is followed by a later one: no branch leads back, and there is no `D`. */
  predicate Orderly(sc: Script) {
    forall k :: 0 <= k < |sc.nodes| ==>
      var n := sc.nodes[k];
      && (n.command.Subst? ==> n.command.gfl == 0) && !n.command.DeleteFirst?
      && (n.lb1.Some? ==> k < n.lb1.value)
  }

  function AppendsFrom(sc: Script, pc: nat): nat
    requires pc <= |sc.nodes|
    decreases |sc.nodes| - pc
  {
    if pc == |sc.nodes| then 0 else AppendsFrom(sc, pc + 1) + if sc.nodes[pc].command.Append? then 1 else 0
  }

  lemma {:induction false} FewerLater(sc: Script, pc: nat, later: nat)
    requires pc <= later <= |sc.nodes|
    ensures AppendsFrom(sc, later) <= AppendsFrom(sc, pc)
    decreases later - pc
  {
    if pc < later {
      FewerLater(sc, pc + 1, later);
    }
  }

  lemma OrderlyStep(sc: Script, s: State, pc: nat)
    requires ValidScript(sc) && ValidState(sc, s) && pc < |sc.nodes| && Orderly(sc)
    ensures var (s', t) := Step(sc, s, pc);
            && (t.Goto? ==> pc < t.pc <= |sc.nodes|) && (t.Suspend? || t.Halt? ==> s'.abuf == [])
            && |s'.abuf| <= |s.abuf| + (if sc.nodes[pc].command.Append? then 1 else 0)
  {
    hide Substituted, Substitution.Matches, Replaces, SizeAfter, Grown, FirstLine, Decimal, Mapped, WriteAll,
      LineList.Listing, ValidExpr, Consumes, Addressed;
    StepValid(sc, s, pc);
  }

  /** The queue is written when the loop is left, but for the end of a cycle, which writes it as well. */
  lemma {:induction false} OrderlyLoop(sc: Script, s: State, pc: nat, n: nat)
    requires ValidScript(sc) && ValidState(sc, s) && pc <= |sc.nodes| && Orderly(sc) && s.lsize.Some?
    requires |s.abuf| + AppendsFrom(sc, pc) < QUEUE
    ensures var (s', t) := Loop(sc, s, pc, n); s'.lsize.Some? && (t.Suspend? || t.Halt? ==> s'.abuf == [])
    decreases n
  {
    hide Step, Straying;
    if pc < |sc.nodes| && n > 0 {
      StepValid(sc, s, pc);
      OrderlyStep(sc, s, pc);
      StepStrays(sc, s, pc);
      NotTooMuch(sc, s, pc);
      var (s', t) := Step(sc, s, pc);
      if t.Goto? {
        FewerLater(sc, pc + 1, t.pc);
        OrderlyLoop(sc, s', t.pc, n - 1);
      }
    }
  }

  lemma NotTooMuch(sc: Script, s: State, pc: nat)
    requires ValidScript(sc) && ValidState(sc, s) && pc < |sc.nodes| && Orderly(sc)
    requires |s.abuf| + AppendsFrom(sc, pc) < QUEUE
    ensures !Straying(sc, s, pc)
  {
  }

  lemma QueueWritten(sc: Script, s: State, t: Turn)
    requires !t.Goto? && (t.Suspend? || t.Halt? ==> s.abuf == [])
    ensures Settle(sc, s, t).s.abuf == [] && Settle(sc, s, t).s.lsize == s.lsize
  {
  }

  /** Such a script with nineteen `a` or fewer never follows a pointer out of its buffer, whatever lines are pushed. */
  lemma {:induction false} OrderlyPush(sc: Script, m: Machine, lines: seq<seq<byte>>, closed: bool, n: nat)
    requires ValidScript(sc) && ValidMachine(sc, m) && Text(lines) && Orderly(sc) && AppendsFrom(sc, 0) < QUEUE
    requires m.s.lsize.Some? && m.s.abuf == []
    ensures var r := Push(sc, m, lines, closed, n); r.Some? ==> r.value.s.lsize.Some?
    decreases |lines|
  {
    hide Loop, Orderly, AppendsFrom;
    if lines != [] && !m.quit {
      var last := closed && |lines| == 1;
      FewerLater(sc, 0, Start(m));
      OrderlyLoop(sc, Load(m.s, lines[0], last), Start(m), n);
      var r := Execute(sc, m, lines[0], last, n);
      if r.Some? {
        var (s', t) := Loop(sc, Load(m.s, lines[0], last), Start(m), n);
        QueueWritten(sc, s', t);
        OrderlyPush(sc, r.value, lines[1..], closed, n);
      }
    }
  }
}
