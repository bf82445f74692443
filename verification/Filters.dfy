/** Scripts as filters: what they write for a text, line by line. */
module Filters {
  import opened Options
  import opened Bytes
  import opened Script
  import opened Evaluation
  import opened PushPull
  import opened Substitution
  import opened Chunks
  import LineList

  /** What is written for a line, given all lines up to it, and whether it is the last one. */
  type Writer = (seq<seq<byte>>, bool) -> seq<byte>

  /** The latest of some lines. */
  function Current(done: seq<seq<byte>>): seq<byte> {
    if done == [] then [] else done[|done| - 1]
  }

  /** What is written for the lines behind the first k. */
  function Each(w: Writer, lines: seq<seq<byte>>, k: nat): seq<byte>
    requires k <= |lines|
    decreases |lines| - k
  {
    if k == |lines| then [] else w(lines[..k + 1], k + 1 == |lines|) + Each(w, lines, k + 1)
  }

  /** Lines in the sense of a text. */
  ghost predicate Proper(lines: seq<seq<byte>>) {
    Text(lines) && forall k :: 0 <= k < |lines| ==> NEWLINE !in lines[k]
  }

  // ----- scripts that deal with one line after the other -----

  /** Between two lines, done being those so far, with nothing pending and nothing queued. */
  ghost predicate Between(sc: Script, m: Machine, done: seq<seq<byte>>) {
    && ValidMachine(sc, m) && m.pending.None? && !m.quit && m.s.linebuf == [] && m.s.abuf == []
    && m.s.lnum == |done|
  }

  /** The latest line, pushed, is written as w says, and leaves the machine so that the next line can be. */
  ghost predicate WritesLine(sc: Script, n: nat, inv: (Machine, seq<seq<byte>>) -> bool, w: Writer, m: Machine,
                             done: seq<seq<byte>>, last: bool)
    requires ValidScript(sc) && ValidMachine(sc, m) && Text(done) && done != []
  {
    var r := Execute(sc, m, Current(done), last, n);
    r.Some? && Between(sc, r.value, done) && inv(r.value, done) && r.value.s.out == m.s.out + w(done, last)
  }

  ghost predicate Writes(sc: Script, n: nat, inv: (Machine, seq<seq<byte>>) -> bool, w: Writer) {
    && ValidScript(sc)
    && forall m: Machine, done: seq<seq<byte>>, last: bool ::
         Proper(done) && done != [] && Between(sc, m, done[..|done| - 1]) && inv(m, done[..|done| - 1]) ==>
           WritesLine(sc, n, inv, w, m, done, last)
  }

  lemma {:induction false} WritesEach(sc: Script, n: nat, inv: (Machine, seq<seq<byte>>) -> bool, w: Writer, m: Machine,
                                      lines: seq<seq<byte>>, k: nat)
    requires Writes(sc, n, inv, w) && k <= |lines| && Proper(lines)
    requires Between(sc, m, lines[..k]) && inv(m, lines[..k])
    ensures var r := Push(sc, m, lines[k..], true, n);
            r.Some? && r.value.s.out == m.s.out + Each(w, lines, k)
    decreases |lines| - k
  {
    hide Execute, Push;
    PushOne(sc, m, lines, k, n);
    if k < |lines| {
      var done, last := lines[..k + 1], k + 1 == |lines|;
      assert done[..k] == lines[..k];
      assert WritesLine(sc, n, inv, w, m, done, last);
      var m' := Execute(sc, m, Current(done), last, n).value;
      WritesEach(sc, n, inv, w, m', lines, k + 1);
      Assoc(m.s.out, w(done, last), Each(w, lines, k + 1));
    }
  }

  /** One line of those behind the first k. */
  lemma PushOne(sc: Script, m: Machine, lines: seq<seq<byte>>, k: nat, n: nat)
    requires ValidScript(sc) && ValidMachine(sc, m) && Text(lines) && k <= |lines| && !m.quit
    ensures Push(sc, m, lines[k..], true, n)
            == if k == |lines| then Some(m)
               else
                 var r := Execute(sc, m, lines[k], k + 1 == |lines|, n);
                 if r.None? then None else Push(sc, r.value, lines[k + 1..], true, n)
    ensures k < |lines| ==> Current(lines[..k + 1]) == lines[k]
  {
    hide Execute;
    if k < |lines| {
      assert lines[k..][0] == lines[k] && lines[k..][1..] == lines[k + 1..];
    }
  }

  lemma {:induction false} LinesProper(text: seq<byte>)
    requires NulFree(text)
    ensures Proper(Lines(text))
    decreases |text|
  {
    LinesNulFree(text);
    HeldFacts(text);
    AheadProper(text);
  }

  lemma {:induction false} AheadProper(text: seq<byte>)
    ensures forall k :: 0 <= k < |Ahead(text)| ==> NEWLINE !in Ahead(text)[k]
    decreases |text|
  {
    var l := FirstLine(text);
    if |l| + 1 < |text| {
      AheadProper(text[|l| + 1..]);
    }
  }

  lemma FilterText(sc: Script, n: nat, inv: (Machine, seq<seq<byte>>) -> bool, w: Writer, text: seq<byte>)
    requires Writes(sc, n, inv, w) && inv(Fresh(sc), []) && NulFree(text)
    ensures var r := Pushed(sc, text, n); r.Some? && r.value.s.out == Each(w, Lines(text), 0)
  {
    hide Writes, Lines, Push, Each;
    LinesProper(text);
    var lines := Lines(text);
    assert lines[..0] == [] && lines[0..] == lines;
    WritesEach(sc, n, inv, w, Fresh(sc), lines, 0);
    assert [] + Each(w, lines, 0) == Each(w, lines, 0);
  }

  // ----- lines as they are -----

  function Passed(quiet: bool, line: seq<byte>): seq<byte> {
    if quiet then [] else line + [NEWLINE]
  }

  /** The lines, each with a newline. */
  function Unlines(lines: seq<seq<byte>>): seq<byte> {
    if lines == [] then [] else lines[0] + [NEWLINE] + Unlines(lines[1..])
  }

  /** A text in which every line ends in a newline. */
  function Closed(text: seq<byte>): seq<byte> {
    if text == [] || Ended(text) then text else text + [NEWLINE]
  }

  /** A text is its lines, each with a newline. */
  lemma {:induction false} TextIsLines(text: seq<byte>)
    ensures Unlines(Lines(text)) == Closed(text)
    decreases |text|
  {
    hide Lines, Closed, Ahead, Held, FirstLine;
    var l := FirstLine(text);
    LinesOnce(text);
    if text != [] && |l| + 1 < |text| {
      TextIsLines(text[|l| + 1..]);
      assert ([l] + Lines(text[|l| + 1..]))[1..] == Lines(text[|l| + 1..]);
      ClosedOnce(text, l);
    } else {
      assert [Trimmed(text)][1..] == [];
      LastClosed(text);
    }
  }

  lemma LinesOnce(text: seq<byte>)
    ensures var l := FirstLine(text);
            Lines(text)
            == if text == [] then [] else if |l| + 1 >= |text| then [Trimmed(text)] else [l] + Lines(text[|l| + 1..])
  {
    AheadOnce(text);
  }

  lemma ClosedOnce(text: seq<byte>, l: seq<byte>)
    requires l == FirstLine(text) && |l| + 1 < |text|
    ensures Closed(text) == l + [NEWLINE] + Closed(text[|l| + 1..])
  {
    hide FirstLine;
    var rest := text[|l| + 1..];
    SplitAt(text, l);
    assert Ended(text) <==> Ended(rest);
    Assoc(l + [NEWLINE], rest, [NEWLINE]);
  }

  lemma SplitAt(text: seq<byte>, l: seq<byte>)
    requires l <= text && |l| < |text| && text[|l|] == NEWLINE
    ensures text == l + [NEWLINE] + text[|l| + 1..]
  {
  }

  lemma LastClosed(text: seq<byte>)
    ensures Closed(text) == if text == [] then [] else Trimmed(text) + [NEWLINE] + []
  {
    assert Ended(text) ==> text == Trimmed(text) + [NEWLINE];
  }

  /** w writes every line as it is. */
  ghost predicate WritesLines(w: Writer, quiet: bool) {
    forall done: seq<seq<byte>>, last: bool :: w(done, last) == Passed(quiet, Current(done))
  }

  lemma {:induction false} EachPassed(w: Writer, lines: seq<seq<byte>>, k: nat)
    requires WritesLines(w, false) && k <= |lines|
    ensures Each(w, lines, k) == Unlines(lines[k..])
    decreases |lines| - k
  {
    if k < |lines| {
      EachPassed(w, lines, k + 1);
      assert lines[k..][0] == lines[k] && lines[k..][1..] == lines[k + 1..];
    }
  }

  lemma {:induction false} EachNothing(w: Writer, lines: seq<seq<byte>>, k: nat)
    requires WritesLines(w, true) && k <= |lines|
    ensures Each(w, lines, k) == []
    decreases |lines| - k
  {
    if k < |lines| {
      EachNothing(w, lines, k + 1);
    }
  }

  /** A script without commands writes the text as it is, closing its last line, and nothing under `-n`. */
  lemma NoCommands(quiet: bool, text: seq<byte>, n: nat)
    requires NulFree(text)
    ensures var sc := Script([], quiet);
            && ValidScript(sc)
            && var r := Pushed(sc, text, n);
               r.Some? && r.value.s.out == if quiet then [] else Closed(text)
  {
    hide Lines, Closed, Each, Ahead, Held, Unlines;
    var sc, w: Writer := Script([], quiet), (done, last) => Passed(quiet, Current(done));
    var any: (Machine, seq<seq<byte>>) -> bool := (m, done) => true;
    forall m: Machine, done: seq<seq<byte>>, last: bool
      | Proper(done) && done != [] && Between(sc, m, done[..|done| - 1])
      ensures WritesLine(sc, n, any, w, m, done, last)
    {
      assert m.s.linebuf + Current(done) == Current(done);
      Assoc(m.s.out, Current(done), [NEWLINE]);
    }
    FilterText(sc, n, any, w, text);
    var lines := Lines(text);
    assert lines[0..] == lines;
    if quiet {
      EachNothing(w, lines, 0);
    } else {
      EachPassed(w, lines, 0);
      TextIsLines(text);
    }
  }

  // ----- scripts of one command -----

  /** The commands after which execution goes on in the same cycle or ends it. */
  predicate Local(c: Command) {
    !c.Next? && !c.NextAppend? && !c.Quit?
  }

  /** What a command on its own writes for a line, with what is written at the end of the cycle. */
  function Shown(c: Command, quiet: bool, line: seq<byte>, number: nat): seq<byte>
    requires ValidCommand(c) && Local(c) && NulFree(line)
  {
    match c
    case Append(t) => Passed(quiet, line) + (t + [NEWLINE])
    case Change(t) => t + [NEWLINE]
    case Delete => []
    case DeleteFirst => []
    case Number => Decimal(number) + [NEWLINE] + Passed(quiet, line)
    case Get => Passed(quiet, [])
    case GetAppend => Passed(quiet, line + [NEWLINE])
    case Insert(t) => t + [NEWLINE] + Passed(quiet, line)
    case List => LineList.Listing(line) + Passed(quiet, line)
    case Print => line + [NEWLINE] + Passed(quiet, line)
    case PrintFirst => line + [NEWLINE] + Passed(quiet, line)
    case Subst(e, rhs, gfl, pfl) =>
      var edited := Substituted(e, line, rhs, gfl);
      var shown := pfl != 0 && quiet && Replaces(gfl, |Substitution.Matches(e, line, gfl)|);
      (if shown then (if pfl == 1 then edited else FirstLine(edited)) + [NEWLINE] else []) + Passed(quiet, edited)
    case Translate(t) => Passed(quiet, Mapped(line, t))
    case _ => Passed(quiet, line)
  }

  /** Does an address on its own, or its negation, select the line? */
  predicate Selects(ad: Option<Address>, neg: bool, line: seq<byte>, number: nat, last: bool) {
    (match ad
     case None => true
     case Some(Last) => last
     case Some(Line(k)) => number == k
     case Some(Matching(e)) => FirstMatch(e, line).Match?) != neg
  }

  function OneNode(c: Command, ad: Option<Address>, neg: bool): Node {
    Node(ad, None, neg, c, if c.DeleteFirst? then Some(0) else None)
  }

  /** The queue and the line are empty at the end of a cycle, and what is left in them has been written. */
  lemma Settled(sc: Script, s: State, delete: bool)
    ensures var m := Settle(sc, s, EndCycle(delete));
            && m.s.linebuf == [] && m.s.abuf == [] && m.pending.None? && !m.quit
            && m.s.holdbuf == s.holdbuf && m.s.lnum == s.lnum && m.s.inar == s.inar
            && m.s.out == s.out + (if delete then [] else Passed(sc.nflag, s.linebuf)) + WriteAll(s.abuf)
  {
    Assoc(s.out, s.linebuf, [NEWLINE]);
    assert s.out + [] == s.out;
  }

  lemma WriteOne(text: seq<byte>)
    ensures WriteAll([]) == [] && WriteAll([text]) == text + [NEWLINE]
  {
    assert [text][1..] == [];
  }

  /** The state in which a line is begun. */
  lemma Loaded(sc: Script, m: Machine, done: seq<seq<byte>>, last: bool)
    requires ValidScript(sc) && Proper(done) && done != [] && Between(sc, m, done[..|done| - 1])
    ensures var s := Load(m.s, Current(done), last);
            && ValidState(sc, s) && s.linebuf == Current(done) && s.abuf == [] && s.lnum == |done| && s.dolflag == last
            && s.holdbuf == m.s.holdbuf && s.out == m.s.out && s.inar == m.s.inar && !s.sflag && Start(m) == 0
    ensures NulFree(Current(done)) && NEWLINE !in Current(done)
  {
    assert m.s.linebuf + Current(done) == Current(done);
  }

  /** One turn of the loop. */
  lemma Turns(sc: Script, s: State, pc: nat, n: nat)
    requires ValidScript(sc) && ValidState(sc, s) && pc < |sc.nodes| && n > 0
    ensures var (s', t) := Step(sc, s, pc);
            && ValidState(sc, s') && (t.Goto? ==> t.pc <= |sc.nodes|)
            && Loop(sc, s, pc, n) == if t.Goto? then Loop(sc, s', t.pc, n - 1) else (s', t)
  {
    StepValid(sc, s, pc);
  }

  lemma LoopEnds(sc: Script, s: State, n: nat)
    requires ValidScript(sc) && ValidState(sc, s)
    ensures Loop(sc, s, |sc.nodes|, n) == (s, EndCycle(false))
  {
  }

  /** A command is executed exactly if its address, or the negation, selects the line. */
  lemma Selected(sc: Script, s: State, pc: nat)
    requires ValidScript(sc) && ValidState(sc, s) && pc < |sc.nodes| && sc.nodes[pc].ad2.None?
    ensures var n := sc.nodes[pc];
            Step(sc, s, pc)
            == if Selects(n.ad1, n.negfl, s.linebuf, s.lnum, s.dolflag) then Act(sc, s, pc) else (s, Goto(pc + 1))
  {
    hide Act, FirstMatch;
    assert s.inar[pc := false] == s.inar;
    assert s.(inar := s.inar) == s;
    var n := sc.nodes[pc];
    assert Executes(n, s, false) <==> Selects(n.ad1, n.negfl, s.linebuf, s.lnum, s.dolflag);
    assert !Addressed(n, s, false).1;
    assert s.(inar := s.inar[pc := Addressed(n, s, s.inar[pc]).1]) == s;
  }

  /** The command in a state reached, and the end of the cycle. */
  ghost predicate Shows(sc: Script, s: State, c: Command)
    requires ValidScript(sc) && |sc.nodes| == 1 && ValidState(sc, s) && ValidCommand(c) && Local(c)
  {
    var (s', t) := Act(sc, s, 0);
    && (t == Goto(1) || t.EndCycle?)
    && var m := Settle(sc, s', if t.Goto? then EndCycle(false) else t);
       m.s.out == s.out + Shown(c, sc.nflag, s.linebuf, s.lnum)
  }

  lemma PrintersShow(sc: Script, s: State, c: Command)
    requires ValidScript(sc) && |sc.nodes| == 1 && ValidState(sc, s) && s.abuf == [] && NEWLINE !in s.linebuf
    requires sc.nodes[0].command == c && sc.nodes[0].ad2.None?
    requires c.Append? || c.Change? || c.Insert? || c.Number? || c.List? || c.Print? || c.PrintFirst?
    ensures Shows(sc, s, c)
  {
    hide LineList.Listing, Decimal, FirstLine, WriteAll, Settle, Passed;
    var (s', t) := Act(sc, s, 0);
    Settled(sc, s', c.Change?);
    NoNewline(s.linebuf);
    if c.Append? || c.Change? || c.Insert? {
      WriteOne(c.text);
    } else {
      WriteOne([]);
    }
    var passed := Passed(sc.nflag, s.linebuf);
    assert s.out + passed + [] == s.out + passed;
    match c
    case Append(text) =>
      assert [] + [text] == [text];
      Assoc(s.out, passed, text + [NEWLINE]);
    case Change(text) => Join3(s.out, text, [NEWLINE], []);
    case Insert(text) => Join3(s.out, text, [NEWLINE], passed);
    case Number => Join3(s.out, Decimal(s.lnum), [NEWLINE], passed);
    case List => Assoc(s.out, LineList.Listing(s.linebuf), passed);
    case _ => Join3(s.out, s.linebuf, [NEWLINE], passed);
  }

  lemma NoNewline(line: seq<byte>)
    requires NEWLINE !in line
    ensures FirstLine(line) == line
  {
    FirstLineIs(line, |line|);
  }

  lemma Join3(a: seq<byte>, b: seq<byte>, c: seq<byte>, d: seq<byte>)
    ensures a + b + c + d == a + (b + c + d) && a + b + c + d + [] == a + (b + c + d)
    ensures a + b + c + [] + [] == a + (b + c)
  {
  }

  lemma EditorsShow(sc: Script, s: State, c: Command)
    requires ValidScript(sc) && |sc.nodes| == 1 && ValidState(sc, s) && s.abuf == [] && NEWLINE !in s.linebuf
    requires sc.nodes[0].command == c && Local(c) && (c.Get? || c.GetAppend? ==> s.holdbuf == []) && !s.sflag
    requires c.Delete? || c.DeleteFirst? || c.Get? || c.GetAppend? || c.Hold? || c.HoldAppend? || c.Branch? || c.Test?
             || c.Translate?
    requires sc.nodes[0].lb1 == if c.DeleteFirst? then Some(0) else None
    ensures Shows(sc, s, c)
  {
    hide Substituting, Mapped, FirstLine, WriteAll, Settle, Passed;
    var (s', t) := Act(sc, s, 0);
    NoNewline(s.linebuf);
    Settled(sc, s', c.Delete? || c.DeleteFirst?);
    WriteOne([]);
    var passed := Passed(sc.nflag, s'.linebuf);
    assert s.out + passed + [] == s.out + passed && s.out + [] + [] == s.out + [];
    assert s.linebuf + [NEWLINE] + [] == s.linebuf + [NEWLINE];
  }

  lemma SubstShows(sc: Script, s: State, c: Command)
    requires ValidScript(sc) && |sc.nodes| == 1 && ValidState(sc, s) && s.abuf == [] && NEWLINE !in s.linebuf
    requires sc.nodes[0].command == c && c.Subst? && ValidCommand(c)
    ensures Shows(sc, s, c)
  {
    hide Substituted, Substitution.Matches, Replaces, SizeAfter, FirstLine, WriteAll, Settle, Passed;
    var (s', t) := Act(sc, s, 0);
    Settled(sc, s', false);
    WriteOne([]);
    var passed, shown := Passed(sc.nflag, s'.linebuf), if c.pfl == 1 then s'.linebuf else FirstLine(s'.linebuf);
    assert s.out + passed + [] == s.out + passed && [] + passed == passed;
    Join3(s.out, shown, [NEWLINE], passed);
  }

  lemma CommandShows(sc: Script, s: State, c: Command)
    requires ValidScript(sc) && |sc.nodes| == 1 && ValidState(sc, s) && s.abuf == [] && NEWLINE !in s.linebuf
    requires sc.nodes[0].command == c && sc.nodes[0].ad2.None? && Local(c) && !s.sflag && ValidCommand(c)
    requires c.Get? || c.GetAppend? ==> s.holdbuf == []
    requires sc.nodes[0].lb1 == if c.DeleteFirst? then Some(0) else None
    ensures Shows(sc, s, c)
  {
    hide Shows;
    if c.Append? || c.Change? || c.Insert? || c.Number? || c.List? || c.Print? || c.PrintFirst? {
      PrintersShow(sc, s, c);
    } else if c.Subst? {
      SubstShows(sc, s, c);
    } else {
      EditorsShow(sc, s, c);
    }
  }

  /** A line under a script of one command. */
  ghost function OneWrites(c: Command, ad: Option<Address>, neg: bool, quiet: bool): Writer
    requires ValidCommand(c) && Local(c)
  {
    (done, last) =>
      var line := Current(done);
      if NulFree(line) && Selects(ad, neg, line, |done|, last) then Shown(c, quiet, line, |done|)
      else Passed(quiet, line)
  }

  lemma OneLine(c: Command, ad: Option<Address>, neg: bool, quiet: bool, inv: (Machine, seq<seq<byte>>) -> bool,
                m: Machine, done: seq<seq<byte>>, last: bool, n: nat)
    requires ValidCommand(c) && Local(c) && (ad.Some? ==> ValidAddress(ad.value)) && n > 0
    requires forall m, done :: inv(m, done) <==> (c.Get? || c.GetAppend? ==> m.s.holdbuf == [])
    requires Proper(done) && done != []
    requires var sc := Script([OneNode(c, ad, neg)], quiet);
             ValidScript(sc) && Between(sc, m, done[..|done| - 1]) && inv(m, done[..|done| - 1])
    ensures WritesLine(Script([OneNode(c, ad, neg)], quiet), n, inv, OneWrites(c, ad, neg, quiet), m, done, last)
  {
    hide Step, Settle, Passed, Shown, Selects, WriteAll, Loop, Load, Execute, Local;
    var sc := Script([OneNode(c, ad, neg)], quiet);
    Loaded(sc, m, done, last);
    var s := Load(m.s, Current(done), last);
    OneExecutes(sc, m, done, last, n);
    OneShown(c, ad, neg, quiet, s);
    var (s', t) := Step(sc, s, 0);
    Settled(sc, s', t == EndCycle(true));
  }

  /** The command, if it is selected, and the end of the cycle. */
  lemma OneShown(c: Command, ad: Option<Address>, neg: bool, quiet: bool, s: State)
    requires ValidCommand(c) && Local(c)
    requires var sc := Script([OneNode(c, ad, neg)], quiet); ValidScript(sc) && ValidState(sc, s)
    requires s.abuf == [] && NEWLINE !in s.linebuf && !s.sflag && (c.Get? || c.GetAppend? ==> s.holdbuf == [])
    ensures var (s', t) := Step(Script([OneNode(c, ad, neg)], quiet), s, 0);
            && (t == Goto(1) || t.EndCycle?) && s'.lnum == s.lnum
            && (c.Get? || c.GetAppend? ==> s'.holdbuf == s.holdbuf)
            && var m := Settle(Script([OneNode(c, ad, neg)], quiet), s', if t.Goto? then EndCycle(false) else t);
               m.s.out
               == s.out + if Selects(ad, neg, s.linebuf, s.lnum, s.dolflag) then Shown(c, quiet, s.linebuf, s.lnum)
                          else Passed(quiet, s.linebuf)
  {
    hide Step, Act, Settle, Passed, Shown, Selects, WriteAll;
    var sc := Script([OneNode(c, ad, neg)], quiet);
    Selected(sc, s, 0);
    if Selects(ad, neg, s.linebuf, s.lnum, s.dolflag) {
      CommandShows(sc, s, c);
      ActLeaves(sc, s, 0);
      HoldKept(sc, s, c);
    } else {
      Settled(sc, s, false);
      WriteOne([]);
      assert s.out + Passed(quiet, s.linebuf) + [] == s.out + Passed(quiet, s.linebuf);
    }
  }

  lemma OneExecutes(sc: Script, m: Machine, done: seq<seq<byte>>, last: bool, n: nat)
    requires ValidScript(sc) && |sc.nodes| == 1 && n > 0
    requires Proper(done) && done != [] && Between(sc, m, done[..|done| - 1])
    ensures NulFree(Current(done)) && ValidState(sc, Load(m.s, Current(done), last))
    ensures var (s', t) := Step(sc, Load(m.s, Current(done), last), 0);
            && ValidState(sc, s')
            && (t == Goto(1) || t.EndCycle? ==>
                  Execute(sc, m, Current(done), last, n)
                  == Some(Settle(sc, s', if t.Goto? then EndCycle(false) else t)))
  {
    hide Step, Settle, Loop, Load;
    Loaded(sc, m, done, last);
    var s := Load(m.s, Current(done), last);
    Turns(sc, s, 0, n);
    LoopEnds(sc, Step(sc, s, 0).0, n - 1);
  }

  lemma HoldKept(sc: Script, s: State, c: Command)
    requires ValidScript(sc) && |sc.nodes| == 1 && ValidState(sc, s) && sc.nodes[0].command == c
    ensures c.Get? || c.GetAppend? ==> Act(sc, s, 0).0.holdbuf == s.holdbuf
  {
  }

  /**
   * A script of one command, with any address of its own and with or without `!`, does to every line that is selected
   * what the command is for, and passes on the others.
   */
  lemma OneCommand(c: Command, ad: Option<Address>, neg: bool, quiet: bool, text: seq<byte>, n: nat)
    requires ValidCommand(c) && Local(c) && (ad.Some? ==> ValidAddress(ad.value)) && n > 0 && NulFree(text)
    ensures var sc := Script([OneNode(c, ad, neg)], quiet);
            && ValidScript(sc)
            && var r := Pushed(sc, text, n);
               r.Some? && r.value.s.out == Each(OneWrites(c, ad, neg, quiet), Lines(text), 0)
  {
    hide Lines, Each, Shown, Selects, Passed, WritesLine, ValidCommand, ValidAddress;
    var sc, w := Script([OneNode(c, ad, neg)], quiet), OneWrites(c, ad, neg, quiet);
    var inv: (Machine, seq<seq<byte>>) -> bool :=
      (m: Machine, done: seq<seq<byte>>) => c.Get? || c.GetAppend? ==> m.s.holdbuf == [];
    forall m: Machine, done: seq<seq<byte>>, last: bool
      | Proper(done) && done != [] && Between(sc, m, done[..|done| - 1]) && inv(m, done[..|done| - 1])
      ensures WritesLine(sc, n, inv, w, m, done, last)
    {
      OneLine(c, ad, neg, quiet, inv, m, done, last, n);
    }
    FilterText(sc, n, inv, w, text);
  }
}
