/**
 * `sed_eval_buffer`, `sed_eval_file` and `sed_finalize_eval`: input arrives in pieces cut anywhere, and is executed
 * line by line, the last line only when it is known to be the last.
 */
module Chunks {
  import opened Options
  import opened Bytes
  import opened Script
  import opened Evaluation
  import opened PushPull
  import opened Execution
  import opened Substitution
  import opened LineRoom

  // ----- the lines of a text -----

  predicate Ended(text: seq<byte>) {
    text != [] && text[|text| - 1] == NEWLINE
  }

  function Trimmed(text: seq<byte>): seq<byte> {
    if Ended(text) then text[..|text| - 1] else text
  }

  /** The lines known not to be the last: all but the one at the end, ended or not. */
  function Ahead(text: seq<byte>): seq<seq<byte>>
    decreases |text|
  {
    var l := FirstLine(text);
    if |l| + 1 >= |text| then [] else [l] + Ahead(text[|l| + 1..])
  }

  /** The line at the end, with its newline if it has one. */
  function Held(text: seq<byte>): seq<byte>
    decreases |text|
  {
    var l := FirstLine(text);
    if |l| + 1 >= |text| then text else Held(text[|l| + 1..])
  }

  /** All lines, without their newlines. */
  function Lines(text: seq<byte>): seq<seq<byte>> {
    Ahead(text) + if text == [] then [] else [Trimmed(Held(text))]
  }

  /** What more text makes of the line at the end. */
  function AheadOnto(held: seq<byte>, more: seq<byte>): seq<seq<byte>> {
    if Ended(held) then [Trimmed(held)] + Ahead(more) else Ahead(held + more)
  }

  function HeldOnto(held: seq<byte>, more: seq<byte>): seq<byte> {
    if Ended(held) then Held(more) else Held(held + more)
  }

  lemma {:induction false} MoreText(a: seq<byte>, b: seq<byte>)
    requires b != []
    ensures Ahead(a + b) == Ahead(a) + AheadOnto(Held(a), b)
    ensures Held(a + b) == HeldOnto(Held(a), b)
    decreases |a|
  {
    hide Ahead, Held, FirstLine;
    var l := FirstLine(a);
    AheadOnce(a);
    if |l| + 1 < |a| {
      FirstLineIs(a + b, |l|);
      AheadOnce(a + b);
      assert (a + b)[..|l|] == l && (a + b)[|l| + 1..] == a[|l| + 1..] + b;
      MoreText(a[|l| + 1..], b);
      assert [l] + (Ahead(a[|l| + 1..]) + AheadOnto(Held(a), b)) == Ahead(a) + AheadOnto(Held(a), b);
    } else if Ended(a) {
      EndsInLine(a, l);
      FirstLineIs(a + b, |a| - 1);
      AheadOnce(a + b);
      assert (a + b)[..|a| - 1] == a[..|a| - 1] && (a + b)[|a|..] == b;
      assert [] + AheadOnto(a, b) == AheadOnto(a, b);
    } else {
      assert [] + AheadOnto(a, b) == AheadOnto(a, b);
    }
  }

  lemma EndsInLine(a: seq<byte>, l: seq<byte>)
    requires l == FirstLine(a) && Ended(a) && |l| + 1 >= |a|
    ensures forall k :: 0 <= k < |a| - 1 ==> a[k] != NEWLINE
  {
    assert |l| == |a| - 1 && l == a[..|l|];
  }

  lemma {:induction false} HeldFacts(text: seq<byte>)
    ensures Held(text) == [] <==> text == []
    ensures Ended(Held(text)) <==> Ended(text)
    ensures NEWLINE !in Trimmed(Held(text))
    decreases |text|
  {
    var l := FirstLine(text);
    if |l| + 1 < |text| {
      HeldFacts(text[|l| + 1..]);
    } else {
      assert text[..|l|] == l;
      assert |l| == |text| ==> text == l;
    }
  }

  lemma {:induction false} LinesNulFree(text: seq<byte>)
    requires NulFree(text)
    ensures Text(Ahead(text)) && NulFree(Held(text)) && Text(Lines(text))
    decreases |text|
  {
    var l := FirstLine(text);
    if |l| + 1 < |text| {
      LinesNulFree(text[|l| + 1..]);
    }
  }

  // ----- pushing one list of lines after another -----

  lemma {:induction false} PushAppend(sc: Script, m: Machine, a: seq<seq<byte>>, b: seq<seq<byte>>, n: nat)
    requires ValidScript(sc) && ValidMachine(sc, m) && Text(a) && Text(b)
    ensures var r := Push(sc, m, a, false, n);
            Push(sc, m, a + b, false, n) == if r.Some? then Push(sc, r.value, b, false, n) else None
    decreases |a|
  {
    if a == [] {
      assert a + b == b;
    } else if !m.quit {
      var r := Execute(sc, m, a[0], false, n);
      assert (a + b)[1..] == a[1..] + b;
      if r.Some? {
        PushAppend(sc, r.value, a[1..], b, n);
      }
    }
  }

  /** The last of the lines is pushed as the last one. */
  lemma {:induction false} PushLast(sc: Script, m: Machine, a: seq<seq<byte>>, line: seq<byte>, n: nat)
    requires ValidScript(sc) && ValidMachine(sc, m) && Text(a) && NulFree(line)
    ensures var r := Push(sc, m, a, false, n);
            Push(sc, m, a + [line], true, n)
            == if r.None? then None else if r.value.quit then r else Execute(sc, r.value, line, true, n)
    decreases |a|
  {
    if a == [] {
      assert a + [line] == [line];
      var r := Execute(sc, m, line, true, n);
      if !m.quit && r.Some? {
        assert Push(sc, r.value, [line][1..], true, n) == r;
      }
    } else if !m.quit {
      var r := Execute(sc, m, a[0], false, n);
      assert (a + [line])[1..] == a[1..] + [line];
      if r.Some? {
        PushLast(sc, r.value, a[1..], line, n);
      }
    }
  }

  // ----- what commands leave alone -----

  lemma StepKeeps(sc: Script, s: State, pc: nat)
    requires ValidScript(sc) && ValidState(sc, s) && pc < |sc.nodes|
    ensures var s' := Step(sc, s, pc).0; s'.lnum == s.lnum && s'.dolflag == s.dolflag
  {
    hide Act;
    ActLeaves(sc, s.(inar := s.inar[pc := Addressed(sc.nodes[pc], s, s.inar[pc]).1]), pc);
  }

  lemma {:induction false} LoopKeeps(sc: Script, s: State, pc: nat, n: nat)
    requires ValidScript(sc) && ValidState(sc, s) && pc <= |sc.nodes|
    ensures var s' := Loop(sc, s, pc, n).0; s'.lnum == s.lnum && s'.dolflag == s.dolflag
    decreases n
  {
    if pc < |sc.nodes| && n > 0 {
      StepValid(sc, s, pc);
      StepKeeps(sc, s, pc);
      var (s', t) := Step(sc, s, pc);
      if t.Goto? {
        LoopKeeps(sc, s', t.pc, n - 1);
      }
    }
  }

  lemma {:induction false} AfterQuitKeeps(sc: Script, s: State, pc: nat)
    requires ValidScript(sc) && ValidState(sc, s) && pc <= |sc.nodes|
    ensures LoopAfterQuit(sc, s, pc).0.lnum == s.lnum
    decreases |sc.nodes| - pc
  {
    if pc < |sc.nodes| {
      StepValid(sc, s, pc);
      StepKeeps(sc, s, pc);
      if !Executes(sc.nodes[pc], s, s.inar[pc]) {
        AfterQuitKeeps(sc, Step(sc, s, pc).0, pc + 1);
      }
    }
  }

  // ----- feeding pieces of input -----

  function Fresh(sc: Script): Machine {
    Machine(Initial(sc), None, false)
  }

  /** The machine after all lines of the text but the one at the end. */
  ghost function Reached(sc: Script, text: seq<byte>, n: nat): Option<Machine>
    requires ValidScript(sc) && NulFree(text)
  {
    LinesNulFree(text);
    Push(sc, Fresh(sc), Ahead(text), false, n)
  }

  /**
   * A piece arrives whose text makes the ended line at the end of what came before one that is not the last; that
   * line executes `q`, and the piece has another line that is not the last.
   */
  ghost predicate Overruns(sc: Script, text: seq<byte>, piece: seq<byte>, n: nat)
    requires ValidScript(sc) && NulFree(text)
  {
    LinesNulFree(text);
    && Ended(text) && Ahead(piece) != []
    && var r := Push(sc, Fresh(sc), Ahead(text), false, n);
       && r.Some? && !r.value.quit
       && var r' := Execute(sc, r.value, Trimmed(Held(text)), false, n); r'.Some? && r'.value.quit
  }

  /** A line that has arrived in part, or whole: what the rest of it makes room for. */
  lemma LoadAfter(m: Machine, size: nat, line: seq<byte>, last: bool)
    requires m.s.lsize.Some? && size == Grown(m.s.lsize.value, |m.s.linebuf| + |line| + 1)
    ensures Load(Sized(m, Some(size)).s, line, last) == Load(m.s, line, last)
    ensures Load(m.s, line, last).lsize == Some(size)
  {
  }

  /** The machine at the end of the text, when its line buffer has that size. */
  ghost function Ending(sc: Script, text: seq<byte>, n: nat, size: nat): Option<Machine>
    requires ValidScript(sc) && NulFree(text)
  {
    LinesNulFree(text);
    var r := Reached(sc, text, n);
    if r.None? || text == [] || r.value.quit then r
    else PushPull.Execute(sc, Sized(r.value, Some(size)), Trimmed(Held(text)), true, n)
  }

  /** The machine when a piece has arrived behind the text, given the size of the line buffer before. */
  ghost function Arrived(sc: Script, text: seq<byte>, piece: seq<byte>, n: nat, size: nat): Option<Machine>
    requires ValidScript(sc) && NulFree(text) && NulFree(piece)
  {
    var r := Reached(sc, text, n);
    if r.None? || piece == [] then r
    else
      ReachedMore(sc, text, piece, n);
      Push(sc, Sized(r.value, Some(size)), AheadOnto(Held(text), piece), false, n)
  }

  /** The size of the line buffer then. */
  ghost function SizeArrived(sc: Script, text: seq<byte>, piece: seq<byte>, n: nat, size: nat): Option<nat>
    requires ValidScript(sc) && NulFree(text) && NulFree(piece)
  {
    var r := Arrived(sc, text, piece, n, size);
    if r.None? || piece == [] || r.value.quit then Some(size)
    else GrownTo(r.value.s.lsize, |r.value.s.linebuf| + |Held(text + piece)|)
  }

  class Feeder {
    const ev: Evaluator
    var lreadyflag: bool

    /** The evaluator has reached m, and holds the text of the line to be executed next. */
    ghost predicate Holding(m: Machine, held: seq<byte>)
      reads this, ev, ev.ed, ev.ed.vars, ev.inar, ev.lister
    {
      && ev.Valid()
      && if m.quit then ev.quitflag && ev.out == m.s.out && ev.lnum == m.s.lnum
         else
           && !ev.quitflag && !ev.jflag && !ev.delflag && !m.s.dolflag && lreadyflag == Ended(held)
           && |ev.ed.linebuf| <= ev.ed.lsize && ev.AsMachine() == m.(s := m.s.(linebuf := m.s.linebuf + held))
    }

    /** The same, or a pointer has left its buffer where it does so in m. */
    ghost predicate Follows(m: Machine, held: seq<byte>)
      reads this, ev, ev.ed, ev.ed.vars, ev.inar, ev.lister
    {
      if m.s.lsize.None? then ev.wild else Holding(m, held)
    }

    /** The text has been fed, and everything but its last line executed as if pushed line by line. */
    ghost predicate Agrees(text: seq<byte>, n: nat)
      requires ValidScript(ev.sc) && NulFree(text)
      reads this, ev, ev.ed, ev.ed.vars, ev.inar, ev.lister
    {
      var r := Reached(ev.sc, text, n);
      r.Some? && Holding(Sized(r.value, Some(ev.ed.lsize)), Held(text))
    }

    constructor (script: Script)
      requires ValidScript(script)
      ensures ev.sc == script && fresh(ev) && fresh(ev.ed) && fresh(ev.ed.vars) && fresh(ev.inar) && fresh(ev.lister)
      ensures fresh(ev.lister.genbuf)
      ensures ev.ed.lsize == INIT_BUF_SIZE && !ev.wild && forall n: nat :: Agrees([], n)
    {
      ev := new Evaluator(script);
      lreadyflag := false;
    }

    /** `execute` on a line that has been completed in the line buffer. */
    method RunLine(ghost m: Machine, ghost line: seq<byte>, ghost n: nat)
      requires Holding(m, line) && !m.quit && !lreadyflag && NulFree(line) && |m.s.linebuf| + |line| < ev.ed.lsize
      requires ValidMachine(ev.sc, m) && PushPull.Execute(ev.sc, m, line, false, n).Some?
      modifies ev, ev.ed, ev.ed.vars, ev.inar, ev.lister, ev.lister.genbuf
      ensures var r := PushPull.Execute(ev.sc, m, line, false, n).value;
              && Follows(r, []) && (r.s.lsize.Some? ==> !ev.jflag && !ev.delflag && ev.AsMachine() == r)
    {
      hide Evaluation.Loop, ExecuteAfterQuit, PushPull.Push;
      LoopKeeps(ev.sc, Load(m.s, line, false), Start(m), n);
      LoadAfter(m, ev.ed.lsize, line, false);
      assert ev.View().(lnum := ev.lnum + 1, sflag := false) == Load(m.s, line, false);
      assert Start(ev.AsMachine()) == Start(m);
      HeldFits(ev.sc, m, line, false, n);
      ev.Execute(n);
      ghost var r := PushPull.Execute(ev.sc, m, line, false, n).value;
      assert r.s.linebuf + [] == r.s.linebuf;
    }

    /** `memchr`: the first newline from pos on, or the end. */
    method FindNewline(buf: seq<byte>, pos: nat) returns (n: nat)
      requires pos <= |buf|
      ensures pos <= n <= |buf| && buf[pos..n] == FirstLine(buf[pos..]) && (n < |buf| ==> buf[n] == NEWLINE)
    {
      n := pos;
      while n < |buf| && buf[n] != NEWLINE
        invariant pos <= n <= |buf| && forall k :: pos <= k < n ==> buf[k] != NEWLINE
      {
        n := n + 1;
      }
      FirstLineIs(buf[pos..], n - pos);
      assert buf[pos..][..n - pos] == buf[pos..n];
    }

    /** A line completed by part, with rest behind it. */
    method TakeLine(part: seq<byte>, ghost m: Machine, ghost cur: seq<byte>, ghost rest: seq<seq<byte>>, ghost n: nat)
      requires Holding(m, cur) && !m.quit && !lreadyflag && NulFree(part) && NulFree(cur) && !Ended(cur + part)
      requires Text(rest)
      requires ValidMachine(ev.sc, m) && Push(ev.sc, m, [cur + part] + rest, false, n).Some?
      modifies ev, ev.ed, ev.ed.vars, ev.inar, ev.lister, ev.lister.genbuf
      ensures var r := PushPull.Execute(ev.sc, m, cur + part, false, n);
              && r.Some? && Follows(r.value, []) && ValidMachine(ev.sc, r.value)
              && (r.value.s.lsize.Some? ==> ev.AsMachine() == r.value && !ev.jflag && !ev.delflag)
              && Push(ev.sc, r.value, rest, false, n) == Push(ev.sc, m, [cur + part] + rest, false, n)
    {
      hide Evaluation.Loop, PushPull.Execute;
      ghost var line := cur + part;
      ev.ed.AppendToLinebuf(part);
      assert ev.ed.linebuf == m.s.linebuf + line;
      assert ([line] + rest)[0] == line && ([line] + rest)[1..] == rest;
      RoomExecutes(ev.sc, m, ev.ed.lsize, line, false, n);
      RunLine(Sized(m, Some(ev.ed.lsize)), line, n);
    }

    /** The text that is left over when no line is known not to be the last. */
    method KeepRest(part: seq<byte>, ghost m: Machine, ghost cur: seq<byte>)
      requires Holding(m, cur) && !m.quit && !Ended(cur) && NulFree(part) && NulFree(cur)
      modifies this`lreadyflag, ev.ed
      ensures Holding(Sized(m, Some(ev.ed.lsize)), cur + part)
      ensures Some(ev.ed.lsize) == GrownTo(m.s.lsize, |m.s.linebuf| + |cur + part|)
    {
      hide Evaluation.Loop, PushPull.Execute, PushPull.Push, Ahead, Held, FirstLine;
      if part != [] && part[|part| - 1] == NEWLINE {
        lreadyflag := true;
      }
      ev.ed.AppendMem(part);
      assert ev.ed.linebuf == m.s.linebuf + (cur + part);
    }

    /** After `q`, what is left over is saved all the same. */
    method Abandon(part: seq<byte>, ghost m: Machine, ghost held: seq<byte>)
      requires Holding(m, []) && m.quit && NulFree(part)
      modifies ev.ed
      ensures Holding(Sized(m, Some(ev.ed.lsize)), held)
    {
      ev.ed.AppendMem(part);
    }

    /** The loop of `sed_eval_buffer` and the saving of what is left over. */
    method RunLines(buf: seq<byte>, ghost m0: Machine, ghost cur0: seq<byte>, ghost n: nat)
      requires Holding(m0, cur0) && !m0.quit && !lreadyflag && NulFree(buf) && NulFree(cur0) && NEWLINE !in cur0
      requires buf != []
      requires ValidMachine(ev.sc, m0) && Text(Ahead(cur0 + buf)) && Push(ev.sc, m0, Ahead(cur0 + buf), false, n).Some?
      modifies this`lreadyflag, ev, ev.ed, ev.ed.vars, ev.inar, ev.lister, ev.lister.genbuf
      ensures var g := Push(ev.sc, m0, Ahead(cur0 + buf), false, n).value;
              if g.s.lsize.None? then ev.wild
              else
                && Holding(Sized(g, Some(ev.ed.lsize)), Held(cur0 + buf))
                && (!g.quit ==> Some(ev.ed.lsize) == GrownTo(g.s.lsize, |g.s.linebuf| + |Held(cur0 + buf)|))
    {
      hide Ahead, Held, PushPull.Push, PushPull.Execute, FirstLine, Grown;
      var pos := 0;
      ghost var m, cur, goal := m0, cur0, Push(ev.sc, m0, Ahead(cur0 + buf), false, n).value;
      assert buf[pos..] == buf;
      while pos < |buf|
        invariant pos < |buf| && Holding(m, cur) && !m.quit && !lreadyflag && NulFree(cur) && NEWLINE !in cur
        invariant ValidMachine(ev.sc, m) && Text(Ahead(cur + buf[pos..]))
        invariant Push(ev.sc, m, Ahead(cur + buf[pos..]), false, n) == Some(goal)
        invariant Held(cur + buf[pos..]) == Held(cur0 + buf)
      {
        var nl := FindNewline(buf, pos);
        if nl + 1 >= |buf| {
          NoNextLine(cur, buf, pos, nl);
          break;
        }
        NextLine(cur, buf, pos, nl);
        ghost var part := buf[pos..nl];
        LinesNulFree(buf[nl + 1..]);
        TakeLine(buf[pos..nl], m, cur, Ahead(buf[nl + 1..]), n);
        m, cur, pos := PushPull.Execute(ev.sc, m, cur + part, false, n).value, [], nl + 1;
        assert cur + buf[pos..] == buf[pos..];
        if ev.wild {
          PushLost(ev.sc, m, Ahead(cur + buf[pos..]), false, n);
          return;
        }
        if ev.quitflag {
          PushStops(ev.sc, m, Ahead(cur + buf[pos..]), n);
          Abandon(buf[pos..], m, Held(cur0 + buf));
          return;
        }
      }
      PushStops(ev.sc, m, Ahead(cur + buf[pos..]), n);
      KeepRest(buf[pos..], m, cur);
    }

    /**
     * The line held at the end of the text, ended but not known to be the last, is executed when more input arrives.
     */
    method RunHeld(ghost m: Machine, ghost held: seq<byte>, ghost rest: seq<seq<byte>>, ghost n: nat)
      requires Holding(m, held) && !m.quit && lreadyflag && NulFree(held) && Text(rest) && NEWLINE !in Trimmed(held)
      requires ValidMachine(ev.sc, m) && Push(ev.sc, m, [Trimmed(held)] + rest, false, n).Some?
      modifies this`lreadyflag, ev, ev.ed, ev.ed.vars, ev.inar, ev.lister, ev.lister.genbuf
      ensures !lreadyflag
      ensures var r := PushPull.Execute(ev.sc, m, Trimmed(held), false, n);
              && r.Some? && Follows(r.value, []) && ValidMachine(ev.sc, r.value)
              && (r.value.s.lsize.Some? ==> ev.AsMachine() == r.value && !ev.jflag && !ev.delflag)
              && Push(ev.sc, r.value, rest, false, n) == Push(ev.sc, m, [Trimmed(held)] + rest, false, n)
    {
      hide Evaluation.Loop, PushPull.Execute;
      lreadyflag := false;
      ev.ed.linebuf := ev.ed.linebuf[..|ev.ed.linebuf| - 1];
      ghost var line := Trimmed(held);
      assert ev.ed.linebuf == m.s.linebuf + line;
      assert ([line] + rest)[0] == line && ([line] + rest)[1..] == rest;
      RunLine(m, line, n);
    }

    /** When the held line has executed `q`, the loop of `sed_eval_buffer` still executes one line, if there is one. */
    method RunAfterQuit(buf: seq<byte>, ghost m: Machine)
      requires Holding(m, []) && m.quit && ev.AsMachine() == m && !ev.jflag && !ev.delflag && NulFree(buf) && buf != []
      requires m.pending.None?
      modifies this`lreadyflag, ev, ev.ed, ev.ed.vars, ev.inar, ev.lister, ev.lister.genbuf
      ensures Ahead(buf) == [] ==> Holding(Sized(m, Some(ev.ed.lsize)), [])
      ensures Ahead(buf) != [] ==>
                var s := AppendLine(m.s, FirstLine(buf)).(lnum := m.s.lnum + 1, sflag := false);
                && ValidState(ev.sc, s)
                && var s' := ExecuteAfterQuit(ev.sc, s);
                   if s'.lsize.None? then ev.wild
                   else ev.Valid() && ev.quitflag && ev.lnum == m.s.lnum + 1 && ev.out == s'.out
    {
      hide Evaluation.Loop, LoopAfterQuit, PushPull.Execute, PushPull.Push, Ahead, Held, AppendLine, ExecuteAfterQuit;
      hide Grown, ValidState;
      AheadOnce(buf);
      var nl := FindNewline(buf, 0);
      assert buf[0..] == buf;
      if nl + 1 >= |buf| {
        if nl + 1 == |buf| {
          lreadyflag := true;
        }
        Abandon(buf, m, []);
        return;
      }
      LineAfterQuit(buf[..nl], buf[nl + 1..], m);
    }

    /** That line, with another one behind it, and the saving of the rest. */
    method LineAfterQuit(line: seq<byte>, rest: seq<byte>, ghost m: Machine)
      requires Holding(m, []) && m.quit && ev.AsMachine() == m && !ev.jflag && !ev.delflag && m.pending.None?
      requires NulFree(line) && NulFree(rest)
      modifies ev, ev.ed, ev.ed.vars, ev.inar, ev.lister, ev.lister.genbuf
      ensures var s := AppendLine(m.s, line).(lnum := m.s.lnum + 1, sflag := false);
              && ValidState(ev.sc, s)
              && var s' := ExecuteAfterQuit(ev.sc, s);
                 if s'.lsize.None? then ev.wild
                 else ev.Valid() && ev.quitflag && ev.lnum == m.s.lnum + 1 && ev.out == s'.out
    {
      hide Evaluation.Loop, LoopAfterQuit, PushPull.Execute, PushPull.Push;
      ev.ed.AppendToLinebuf(line);
      ghost var s := AppendLine(m.s, line).(lnum := m.s.lnum + 1, sflag := false);
      assert ev.View().(lnum := ev.lnum + 1, sflag := false) == s;
      AfterQuitKeeps(ev.sc, s, 0);
      ev.Execute(0);
      if !ev.wild {
        ev.ed.AppendMem(rest);
      }
    }

    /**
     * `sed_eval_buffer` with the next piece of the input. Wherever the input is cut, the lines executed, their
     * numbers and the output are those of the text pushed line by line, except when an ended line that was held
     * back executes `q`: then one line too many is executed. And a pointer leaves its buffer exactly when it does so
     * in these lines pushed one by one, given the size the line buffer has so far.
     */
    method EvalBuffer(buf: seq<byte>, ghost text: seq<byte>, ghost n: nat)
      requires ValidScript(ev.sc) && NulFree(text) && NulFree(buf) && Agrees(text, n)
      requires Reached(ev.sc, text + buf, n).Some?
      modifies this`lreadyflag, ev, ev.ed, ev.ed.vars, ev.inar, ev.lister, ev.lister.genbuf
      ensures Arrived(ev.sc, text, buf, n, old(ev.ed.lsize)).Some?
      ensures !Overruns(ev.sc, text, buf, n) && buf != [] ==>
                (ev.wild <==> Arrived(ev.sc, text, buf, n, old(ev.ed.lsize)).value.s.lsize.None?)
      ensures !ev.wild ==> ev.Valid() && (Agrees(text + buf, n) <==> !Overruns(ev.sc, text, buf, n))
      ensures !Overruns(ev.sc, text, buf, n) && !ev.wild && !ev.quitflag ==>
                Some(ev.ed.lsize) == SizeArrived(ev.sc, text, buf, n, old(ev.ed.lsize))
      ensures buf == [] ==> !ev.wild
    {
      hide Ahead, Held, PushPull.Push, PushPull.Execute, FirstLine, Grown;
      ghost var m, held, size := Reached(ev.sc, text, n).value, Held(text), ev.ed.lsize;
      if buf == [] {
        NothingMore(ev.sc, text, n);
        assert text + buf == text;
        return;
      }
      ghost var m1 := Sized(m, Some(size));
      ReachedMore(ev.sc, text, buf, n);
      PushAlike(ev.sc, m, m1, AheadOnto(held, buf), false, n);
      if ev.quitflag {
        PushStops(ev.sc, m, AheadOnto(held, buf), n);
        PushStops(ev.sc, m1, AheadOnto(held, buf), n);
        return;
      }
      HeldFacts(text);
      LinesNulFree(text);
      LinesNulFree(buf);
      if lreadyflag {
        RunHeld(m1, held, Ahead(buf), n);
        ghost var m' := PushPull.Execute(ev.sc, m1, Trimmed(held), false, n).value;
        ExecuteAlike(ev.sc, m, m1, Trimmed(held), false, n);
        if ev.wild {
          PushLost(ev.sc, m', Ahead(buf), false, n);
          return;
        }
        if ev.quitflag {
          PushStops(ev.sc, m', Ahead(buf), n);
          RunAfterQuit(buf, m');
          return;
        }
        assert [] + buf == buf;
        RunLines(buf, m', [], n);
      } else {
        RunLines(buf, m1, held, n);
      }
    }

    /** `sed_finalize_eval`: the line held back is the last one. */
    method Finalize(ghost text: seq<byte>, ghost n: nat)
      requires ValidScript(ev.sc) && NulFree(text) && Agrees(text, n) && Pushed(ev.sc, text, n).Some?
      modifies this`lreadyflag, ev, ev.ed, ev.ed.vars, ev.inar, ev.lister, ev.lister.genbuf
      ensures Ending(ev.sc, text, n, old(ev.ed.lsize)).Some?
      ensures ev.wild
              <==> text != [] && !old(ev.quitflag) && Ending(ev.sc, text, n, old(ev.ed.lsize)).value.s.lsize.None?
      ensures !ev.wild ==>
                var m := Pushed(ev.sc, text, n).value; ev.quitflag && ev.out == m.s.out && ev.lnum == m.s.lnum
    {
      hide Ahead, Held, PushPull.Push, PushPull.Execute, FirstLine, Evaluation.Loop, Grown;
      PushedLast(ev.sc, text, n);
      if ev.quitflag {
        return;
      }
      HeldFacts(text);
      LinesNulFree(text);
      ghost var m, held := Sized(Reached(ev.sc, text, n).value, Some(ev.ed.lsize)), Held(text);
      ExecuteAlike(ev.sc, Reached(ev.sc, text, n).value, m, Trimmed(held), true, n);
      RunLast(m, held, n);
      if ev.wild {
        return;
      }
      ev.quitflag := true;
    }

    /** The line held back is completed and executed as the last. */
    method RunLast(ghost m: Machine, ghost held: seq<byte>, ghost n: nat)
      requires Holding(m, held) && !m.quit && NulFree(held) && ValidMachine(ev.sc, m)
      requires m.s.linebuf + held != [] ==> PushPull.Execute(ev.sc, m, Trimmed(held), true, n).Some?
      modifies this`lreadyflag, ev, ev.ed, ev.ed.vars, ev.inar, ev.lister, ev.lister.genbuf
      ensures m.s.linebuf + held != [] ==>
                var r := PushPull.Execute(ev.sc, m, Trimmed(held), true, n).value;
                if r.s.lsize.None? then ev.wild else !ev.wild && ev.AsMachine() == r
      ensures m.s.linebuf + held == [] ==> !ev.wild && ev.out == m.s.out && ev.lnum == m.s.lnum
    {
      hide Evaluation.Loop, Grown;
      ghost var line := Trimmed(held);
      ev.dolflag := true;
      if |ev.ed.linebuf| == 0 {
        return;
      }
      if lreadyflag {
        lreadyflag := false;
        ev.ed.linebuf := ev.ed.linebuf[..|ev.ed.linebuf| - 1];
      } else {
        ev.ed.AppendToLinebuf([]);
      }
      assert ev.ed.linebuf == m.s.linebuf + line;
      LoadAfter(m, ev.ed.lsize, line, true);
      assert ev.View().(lnum := ev.lnum + 1, sflag := false) == Load(m.s, line, true);
      ev.Execute(n);
    }

    /**
     * `sed_eval_file`, the pieces being what each read returns. The output is that of the joined text, or a pointer
     * leaves its buffer, exactly when it does so in the lines executed with the sizes these pieces give the line
     * buffer.
     */
    method EvalFile(pieces: seq<seq<byte>>, ghost n: nat)
      requires ValidScript(ev.sc) && Text(pieces) && Agrees([], n) && ev.ed.lsize == INIT_BUF_SIZE
      requires Pushed(ev.sc, Joined(pieces), n).Some? && Smooth(ev.sc, pieces, n)
      modifies this`lreadyflag, ev, ev.ed, ev.ed.vars, ev.inar, ev.lister, ev.lister.genbuf
      ensures ev.wild <==> Strays(ev.sc, pieces, n)
      ensures !ev.wild ==>
                var m := Pushed(ev.sc, Joined(pieces), n).value; ev.quitflag && ev.out == m.s.out && ev.lnum == m.s.lnum
    {
      hide PushPull.Push, PushPull.Execute, Evaluation.Loop, Ahead, Held, Lines, Overruns, Grown, Reached, Arrived,
        Joined, Pushed,
        Ending;
      var k := 0;
      NothingFed(ev.sc, pieces, n);
      while k < |pieces|
        invariant k <= |pieces| && Agrees(Joined(pieces[..k]), n) && !ev.quitflag
        invariant Fed(ev.sc, pieces[..k], n) == Some(ev.ed.lsize)
      {
        PieceJoined(pieces, k);
        ReachedBefore(ev.sc, Joined(pieces[..k + 1]), Joined(pieces[k + 1..]), n);
        FedOnce(ev.sc, pieces, k, n);
        EvalBuffer(pieces[k], Joined(pieces[..k]), n);
        k := k + 1;
        if ev.wild {
          FedLost(ev.sc, pieces, k, n);
          return;
        }
        if ev.quitflag {
          FedQuit(ev.sc, pieces, k, n);
          PushedAlready(ev.sc, Joined(pieces[..k]), Joined(pieces[k..]), n);
          return;
        }
      }
      assert pieces[..k] == pieces;
      Finalize(Joined(pieces), n);
    }
  }

  lemma NothingFed(sc: Script, pieces: seq<seq<byte>>, n: nat)
    requires ValidScript(sc)
    ensures Joined(pieces[..0]) == [] && Fed(sc, pieces[..0], n) == Some(INIT_BUF_SIZE)
    ensures Reached(sc, [], n) == Some(Fresh(sc))
  {
    assert Ahead([]) == [];
  }

  /** The size of the line buffer when the pieces have been fed; None if a pointer has left its buffer on the way. */
  ghost function Fed(sc: Script, pieces: seq<seq<byte>>, n: nat): Option<nat>
    requires ValidScript(sc) && Text(pieces)
  {
    if pieces == [] then Some(INIT_BUF_SIZE)
    else
      var before, text, piece := Fed(sc, pieces[..|pieces| - 1], n), Joined(pieces[..|pieces| - 1]),
                                     pieces[|pieces| - 1];
      if before.None? || piece == [] then before
      else
        var r := Arrived(sc, text, piece, n, before.value);
        if r.Some? && r.value.s.lsize.None? then None else SizeArrived(sc, text, piece, n, before.value)
  }

  lemma FedOnce(sc: Script, pieces: seq<seq<byte>>, k: nat, n: nat)
    requires ValidScript(sc) && Text(pieces) && k < |pieces|
    ensures var before, text, piece := Fed(sc, pieces[..k], n), Joined(pieces[..k]), pieces[k];
            Fed(sc, pieces[..k + 1], n)
            == if before.None? || piece == [] then before
               else
                 var r := Arrived(sc, text, piece, n, before.value);
                 if r.Some? && r.value.s.lsize.None? then None else SizeArrived(sc, text, piece, n, before.value)
  {
    hide Arrived, SizeArrived, Joined;
    Cut(pieces, k);
  }

  /** A pointer leaves its buffer while the pieces are fed, or when the last line is executed. */
  ghost predicate Strays(sc: Script, pieces: seq<seq<byte>>, n: nat)
    requires ValidScript(sc) && Text(pieces)
  {
    var size, r := Fed(sc, pieces, n), Reached(sc, Joined(pieces), n);
    size.None?
    || (Joined(pieces) != [] && r.Some? && !r.value.quit
        && var e := Ending(sc, Joined(pieces), n, size.value); e.Some? && e.value.s.lsize.None?)
  }

  /** All lines of the text pushed one by one, the last one as the last. */
  ghost function Pushed(sc: Script, text: seq<byte>, n: nat): Option<Machine>
    requires ValidScript(sc) && NulFree(text)
  {
    LinesNulFree(text);
    Push(sc, Fresh(sc), Lines(text), true, n)
  }

  function Joined(pieces: seq<seq<byte>>): (text: seq<byte>)
    ensures Text(pieces) ==> NulFree(text)
  {
    if pieces == [] then [] else pieces[0] + Joined(pieces[1..])
  }

  /** No piece makes a held line execute `q` while it has a further line to execute. */
  ghost predicate Smooth(sc: Script, pieces: seq<seq<byte>>, n: nat)
    requires ValidScript(sc) && Text(pieces)
  {
    forall k :: 0 <= k < |pieces| ==> !Overruns(sc, Joined(pieces[..k]), pieces[k], n)
  }

  predicate WithoutQuit(sc: Script) {
    forall k :: 0 <= k < |sc.nodes| ==> !sc.nodes[k].command.Quit?
  }

  lemma StepGoesOn(sc: Script, s: State, pc: nat)
    requires ValidScript(sc) && ValidState(sc, s) && pc < |sc.nodes| && WithoutQuit(sc)
    ensures !Step(sc, s, pc).1.Halt?
  {
  }

  lemma {:induction false} LoopGoesOn(sc: Script, s: State, pc: nat, n: nat)
    requires ValidScript(sc) && ValidState(sc, s) && pc <= |sc.nodes| && WithoutQuit(sc)
    ensures !Loop(sc, s, pc, n).1.Halt?
    decreases n
  {
    hide Step;
    if pc < |sc.nodes| && n > 0 {
      StepValid(sc, s, pc);
      StepGoesOn(sc, s, pc);
      var (s', t) := Step(sc, s, pc);
      if t.Goto? {
        LoopGoesOn(sc, s', t.pc, n - 1);
      }
    }
  }

  /** Without `q` no piece does: wherever the input of such a script is cut, the lines are those of the whole text. */
  lemma AlwaysSmooth(sc: Script, pieces: seq<seq<byte>>, n: nat)
    requires ValidScript(sc) && Text(pieces) && WithoutQuit(sc)
    ensures Smooth(sc, pieces, n)
  {
    hide Loop, Push, Ahead, Held;
    forall k | 0 <= k < |pieces|
      ensures !Overruns(sc, Joined(pieces[..k]), pieces[k], n)
    {
      var text := Joined(pieces[..k]);
      LinesNulFree(text);
      var r := Push(sc, Fresh(sc), Ahead(text), false, n);
      if r.Some? {
        LoopGoesOn(sc, Load(r.value.s, Trimmed(Held(text)), false), Start(r.value), n);
      }
    }
  }

  lemma {:induction false} JoinedAppend(a: seq<seq<byte>>, b: seq<seq<byte>>)
    ensures Joined(a + b) == Joined(a) + Joined(b)
  {
    if a == [] {
      assert a + b == b;
    } else {
      assert (a + b)[1..] == a[1..] + b;
      JoinedAppend(a[1..], b);
    }
  }

  lemma JoinedSnoc(a: seq<seq<byte>>, x: seq<byte>)
    ensures Joined(a + [x]) == Joined(a) + x
  {
    JoinedAppend(a, [x]);
    assert [x][1..] == [] && x + Joined([]) == x;
  }

  lemma PieceJoined(pieces: seq<seq<byte>>, k: nat)
    requires k < |pieces|
    ensures Joined(pieces[..k + 1]) == Joined(pieces[..k]) + pieces[k]
    ensures Joined(pieces) == Joined(pieces[..k + 1]) + Joined(pieces[k + 1..])
  {
    hide *;
    Cut(pieces, k);
    JoinedSnoc(pieces[..k], pieces[k]);
    JoinedAppend(pieces[..k + 1], pieces[k + 1..]);
  }

  lemma Cut<T>(s: seq<T>, k: nat)
    requires k < |s|
    ensures s[..k] + [s[k]] == s[..k + 1] && s[..k + 1] + s[k + 1..] == s && s[..k + 1][..k] == s[..k]
  {
  }

  /** When all of the text gets through, so do the lines before any point of it. */
  lemma ReachedBefore(sc: Script, a: seq<byte>, b: seq<byte>, n: nat)
    requires ValidScript(sc) && NulFree(a) && NulFree(b) && Pushed(sc, a + b, n).Some?
    ensures Reached(sc, a, n).Some?
  {
    ReachedOfPushed(sc, a + b, n);
    if b == [] {
      assert a + b == a;
    } else {
      ReachedMore(sc, a, b, n);
    }
  }

  lemma ReachedOfPushed(sc: Script, text: seq<byte>, n: nat)
    requires ValidScript(sc) && NulFree(text) && Pushed(sc, text, n).Some?
    ensures Reached(sc, text, n).Some?
  {
    LinesNulFree(text);
    if text != [] {
      PushLast(sc, Fresh(sc), Ahead(text), Trimmed(Held(text)), n);
    }
  }

  /** After `q`, more text changes nothing. */
  lemma PushedAlready(sc: Script, a: seq<byte>, b: seq<byte>, n: nat)
    requires ValidScript(sc) && NulFree(a) && NulFree(b) && Reached(sc, a, n).Some? && Reached(sc, a, n).value.quit
    ensures Pushed(sc, a + b, n) == Reached(sc, a, n)
  {
    var m := Reached(sc, a, n).value;
    if b == [] {
      assert a + b == a;
    } else {
      ReachedMore(sc, a, b, n);
      PushStops(sc, m, AheadOnto(Held(a), b), n);
    }
    PushedLast(sc, a + b, n);
  }

  lemma PushedLast(sc: Script, text: seq<byte>, n: nat)
    requires ValidScript(sc) && NulFree(text) && Reached(sc, text, n).Some?
    ensures NulFree(Held(text)) && (text == [] ==> Reached(sc, text, n) == Some(Fresh(sc)))
    ensures var r := Reached(sc, text, n);
            Pushed(sc, text, n)
            == if text == [] || r.value.quit then r else PushPull.Execute(sc, r.value, Trimmed(Held(text)), true, n)
  {
    LinesNulFree(text);
    if text != [] {
      PushLast(sc, Fresh(sc), Ahead(text), Trimmed(Held(text)), n);
    } else {
      assert Ahead([]) == [];
    }
  }

  lemma NothingMore(sc: Script, text: seq<byte>, n: nat)
    requires ValidScript(sc) && NulFree(text)
    ensures !Overruns(sc, text, [], n)
  {
    assert Ahead([]) == [];
  }

  /** The machine after more text, from the machine before it. */
  lemma ReachedMore(sc: Script, text: seq<byte>, more: seq<byte>, n: nat)
    requires ValidScript(sc) && NulFree(text) && NulFree(more) && more != []
    ensures Text(AheadOnto(Held(text), more))
    ensures var r := Reached(sc, text, n);
            Reached(sc, text + more, n)
            == if r.Some? then Push(sc, r.value, AheadOnto(Held(text), more), false, n) else None
    ensures Held(text + more) == HeldOnto(Held(text), more)
  {
    hide Ahead, Held, FirstLine, PushPull.Push, PushPull.Execute;
    MoreText(text, more);
    LinesNulFree(text);
    LinesNulFree(text + more);
    LinesNulFree(more);
    if !Ended(Held(text)) {
      LinesNulFree(Held(text) + more);
    }
    PushAppend(sc, Fresh(sc), Ahead(text), AheadOnto(Held(text), more), n);
  }

  /** Without a newline before its end, the text holds no line known not to be the last. */
  lemma NoNextLine(cur: seq<byte>, buf: seq<byte>, pos: nat, nl: nat)
    requires pos < |buf| && pos <= nl <= |buf| <= nl + 1 && buf[pos..nl] == FirstLine(buf[pos..]) && NEWLINE !in cur
    ensures var rest := cur + buf[pos..]; Ahead(rest) == [] && Held(rest) == rest
  {
    FirstLineOnto(cur, buf[pos..]);
    assert |FirstLine(cur + buf[pos..])| == |cur| + nl - pos;
  }

  /** What the next newline makes of the lines still to be executed. */
  lemma NextLine(cur: seq<byte>, buf: seq<byte>, pos: nat, nl: nat)
    requires pos < |buf| && pos <= nl < |buf| - 1 && buf[pos..nl] == FirstLine(buf[pos..]) && NEWLINE !in cur
    ensures var rest, line := cur + buf[pos..], cur + buf[pos..nl];
            Ahead(rest) == [line] + Ahead(buf[nl + 1..]) && Held(rest) == Held(buf[nl + 1..]) && !Ended(line)
  {
    hide *;
    var rest, line := cur + buf[pos..], cur + buf[pos..nl];
    FirstLineOnto(cur, buf[pos..]);
    AheadOnce(rest);
    assert rest[|line| + 1..] == buf[nl + 1..];
  }

  lemma AheadOnce(text: seq<byte>)
    ensures var l := FirstLine(text);
            !Ended(l)
            && (|l| + 1 < |text| ==> Ahead(text) == [l] + Ahead(text[|l| + 1..]) && Held(text) == Held(text[|l| + 1..]))
            && (|l| + 1 >= |text| ==> Ahead(text) == [] && Held(text) == text)
  {
  }

  /** A line executed makes the same of the machine when the room for it has been made before. */
  lemma RoomExecutes(sc: Script, m: Machine, size: nat, line: seq<byte>, last: bool, n: nat)
    requires ValidScript(sc) && ValidMachine(sc, m) && NulFree(line) && m.s.lsize.Some?
    requires size == Grown(m.s.lsize.value, |m.s.linebuf| + |line| + 1)
    ensures ValidMachine(sc, Sized(m, Some(size)))
    ensures PushPull.Execute(sc, Sized(m, Some(size)), line, last, n) == PushPull.Execute(sc, m, line, last, n)
  {
    LoadAfter(m, size, line, last);
  }

  lemma {:induction false} FedLost(sc: Script, pieces: seq<seq<byte>>, k: nat, n: nat)
    requires ValidScript(sc) && Text(pieces) && k <= |pieces| && Fed(sc, pieces[..k], n).None?
    ensures Fed(sc, pieces, n).None?
    decreases |pieces|
  {
    if k == |pieces| {
      assert pieces[..k] == pieces;
    } else {
      assert pieces[..|pieces| - 1][..k] == pieces[..k];
      FedLost(sc, pieces[..|pieces| - 1], k, n);
    }
  }

  /** After `q` nothing is executed that could go wrong. */
  lemma {:induction false} FedQuit(sc: Script, pieces: seq<seq<byte>>, k: nat, n: nat)
    requires ValidScript(sc) && Text(pieces) && k <= |pieces| && Fed(sc, pieces[..k], n).Some?
    requires Reached(sc, Joined(pieces[..k]), n).Some? && Reached(sc, Joined(pieces[..k]), n).value.quit
    ensures Fed(sc, pieces, n).Some? && Reached(sc, Joined(pieces), n).Some?
    ensures Reached(sc, Joined(pieces), n).value.quit
    decreases |pieces|
  {
    hide Reached, Arrived, SizeArrived, Joined;
    if k == |pieces| {
      assert pieces[..k] == pieces;
    } else {
      var before, piece := pieces[..|pieces| - 1], pieces[|pieces| - 1];
      assert before[..k] == pieces[..k] && pieces == before + [piece];
      FedQuit(sc, before, k, n);
      JoinedSnoc(before, piece);
      var text := Joined(before);
      QuitArrives(sc, text, piece, n, Fed(sc, before, n).value);
    }
  }

  lemma QuitArrives(sc: Script, text: seq<byte>, piece: seq<byte>, n: nat, size: nat)
    requires ValidScript(sc) && NulFree(text) && NulFree(piece) && Reached(sc, text, n).Some?
    requires Reached(sc, text, n).value.quit
    ensures Reached(sc, text + piece, n).Some? && Reached(sc, text + piece, n).value.quit
    ensures var r := Arrived(sc, text, piece, n, size);
            && r.Some? && r.value.quit && (piece != [] ==> r.value.s.lsize == Some(size))
            && SizeArrived(sc, text, piece, n, size) == Some(size)
  {
    hide PushPull.Push, PushPull.Execute, Ahead, Held, FirstLine;
    if piece == [] {
      assert text + piece == text;
    } else {
      var m := Reached(sc, text, n).value;
      ReachedMore(sc, text, piece, n);
      PushStops(sc, m, AheadOnto(Held(text), piece), n);
      PushStops(sc, Sized(m, Some(size)), AheadOnto(Held(text), piece), n);
    }
  }

  lemma PushStops(sc: Script, m: Machine, lines: seq<seq<byte>>, n: nat)
    requires ValidScript(sc) && ValidMachine(sc, m) && Text(lines) && (lines == [] || m.quit)
    ensures Push(sc, m, lines, false, n) == Some(m)
  {
  }

  lemma FirstLineOnto(a: seq<byte>, b: seq<byte>)
    requires NEWLINE !in a
    ensures FirstLine(a + b) == a + FirstLine(b)
  {
    var l := a + FirstLine(b);
    assert (a + b)[..|l|] == l;
    FirstLineIs(a + b, |l|);
  }

  /** The script `q`, fed the lines a, b and c in the pieces "a\n" and "b\nc\n", executes its second line. */
  lemma QuitOverruns(n: nat)
    requires n > 0
    ensures var sc := Script([Node(None, None, false, Quit, None)], false);
            ValidScript(sc) && Overruns(sc, [97, NEWLINE], [98, NEWLINE, 99, NEWLINE], n)
  {
    var sc := Script([Node(None, None, false, Quit, None)], false);
    var text, piece := [97, NEWLINE], [98, NEWLINE, 99, NEWLINE];
    LinesNulFree(text);
    FirstLineIs(text, 1);
    FirstLineIs(piece, 1);
    assert Ahead(text) == [] && Held(text) == text && Trimmed(text) == [97];
    assert Ahead(piece) != [];
    var s := Load(Initial(sc), [97], false);
    assert Loop(sc, s, 0, n).1 == Halt;
  }
}
