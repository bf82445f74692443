/** Address ranges over a run: the lines on which a command is reached, and the flag `inar` between them. */
module Ranges {
  import opened Options
  import opened Script
  import opened Bytes
  import opened Substitution
  import opened Evaluation
  import opened PushPull

  /** The flag after the command has been reached in these states, starting outside its range. */
  function InsideAfter(n: Node, visits: seq<State>): (inside: bool)
    ensures inside ==> n.ad2.Some?
  {
    if visits == [] then false
    else Addressed(n, visits[|visits| - 1], InsideAfter(n, visits[..|visits| - 1])).1
  }

  /** Is the command executed at the last of its visits? */
  predicate ExecutedLast(n: Node, visits: seq<State>)
    requires visits != []
  {
    Executes(n, visits[|visits| - 1], InsideAfter(n, visits[..|visits| - 1]))
  }

  /** No visit is on an earlier line than the one before it; there may be many on one line. */
  predicate InOrder(visits: seq<State>) {
    forall j, k :: 0 <= j < k < |visits| ==> visits[j].lnum <= visits[k].lnum
  }

  /** How many of the visits are on the line. */
  function Times(visits: seq<State>, line: nat): nat {
    if visits == [] then 0
    else Times(visits[..|visits| - 1], line) + if visits[|visits| - 1].lnum == line then 1 else 0
  }

  /** A line visited is not behind the line of the last visit. */
  lemma {:induction false} Earlier(visits: seq<State>, line: nat)
    requires InOrder(visits) && Times(visits, line) > 0
    ensures line <= visits[|visits| - 1].lnum
  {
    if visits[|visits| - 1].lnum != line {
      Earlier(visits[..|visits| - 1], line);
    }
  }

  // ----- line numbers as addresses -----

  /**
   * With b behind a, the flag is set from the first visit on a to the first visit on b. Otherwise each visit on a
   * turns it round.
   */
  lemma {:induction false} InsideNumbers(n: Node, visits: seq<State>, a: nat, b: nat)
    requires n.ad1 == Some(Line(a)) && n.ad2 == Some(Line(b)) && InOrder(visits) && visits != []
    ensures var l := visits[|visits| - 1].lnum;
            InsideAfter(n, visits) <==>
            if a < b then Times(visits, a) > 0 && l < b else l == a && Times(visits, a) % 2 == 1
    decreases |visits|
  {
    var before := visits[..|visits| - 1];
    if before != [] {
      InsideNumbers(n, before, a, b);
      if Times(before, a) > 0 {
        Earlier(before, a);
      }
    }
  }

  /** The visits `a,b` selects: the last one, given those before it. */
  predicate InNumbers(visits: seq<State>, a: nat, b: nat)
    requires visits != []
  {
    var l := visits[|visits| - 1].lnum;
    if a < b then Times(visits, a) > 0 && (l < b || (l == b && Times(visits, b) == 1))
    else l == a && (a == b || Times(visits, a) % 2 == 1)
  }

  /**
   * `a,b` with numbers, for a command reached any number of times on any lines: with b behind a it is addressed on
   * every visit from line a to line b, but on line b only the first time, and on none when it is not reached on line
   * a; with a and b the same, on every visit on line a; with b before a, on every other visit on line a. `!` selects
   * exactly the other visits.
   */
  lemma NumberRange(n: Node, visits: seq<State>, a: nat, b: nat)
    requires n.ad1 == Some(Line(a)) && n.ad2 == Some(Line(b)) && InOrder(visits) && visits != []
    ensures ExecutedLast(n, visits) <==> InNumbers(visits, a, b) != n.negfl
  {
    var before := visits[..|visits| - 1];
    assert Times(visits, a) == Times(before, a) + if visits[|visits| - 1].lnum == a then 1 else 0;
    assert Times(visits, b) == Times(before, b) + if visits[|visits| - 1].lnum == b then 1 else 0;
    if before != [] {
      InsideNumbers(n, before, a, b);
      if Times(before, b) > 0 {
        Earlier(before, b);
      }
      if Times(before, a) > 0 {
        Earlier(before, a);
      }
      if a < b && before[|before| - 1].lnum == b {
        assert Times(before, b) > 0;
      }
      assert before[|before| - 1].lnum <= visits[|visits| - 1].lnum;
    }
  }

  /** Of these visits, the last one is on a line that `a,b` stands for. */
  predicate Between(visits: seq<State>, a: nat, b: nat)
    requires visits != []
  {
    Times(visits, a) > 0 && visits[|visits| - 1].lnum <= if a <= b then b else a
  }

  /**
   * Every visit on the lines from a to max(a, b) is selected, exactly if this is not a later visit on line b, or on
   * line a when b is before a.
   */
  lemma RangeOfLines(n: Node, visits: seq<State>, a: nat, b: nat)
    requires n.ad1 == Some(Line(a)) && n.ad2 == Some(Line(b)) && InOrder(visits) && visits != []
    ensures var l := visits[|visits| - 1].lnum;
            (ExecutedLast(n, visits) <==> Between(visits, a, b) != n.negfl)
            <==>
            && !(a < b == l && Times(visits, a) > 0 && Times(visits, b) > 1)
            && !(b < a == l && Times(visits, a) % 2 == 0)
  {
    NumberRange(n, visits, a, b);
    if Times(visits, a) > 0 {
      Earlier(visits, a);
    }
    assert Times(visits, visits[|visits| - 1].lnum) > 0;
  }

  lemma {:induction false} InsideToEnd(n: Node, visits: seq<State>, a: nat)
    requires n.ad1 == Some(Line(a)) && n.ad2 == Some(Last)
    ensures InsideAfter(n, visits) <==> Times(visits, a) > 0
    decreases |visits|
  {
    if visits != [] {
      InsideToEnd(n, visits[..|visits| - 1], a);
    }
  }

  /** `a,$`: every visit from the first on line a on. */
  lemma ToEndRange(n: Node, visits: seq<State>, a: nat)
    requires n.ad1 == Some(Line(a)) && n.ad2 == Some(Last) && visits != []
    ensures ExecutedLast(n, visits) <==> (Times(visits, a) > 0) != n.negfl
  {
    InsideToEnd(n, visits[..|visits| - 1], a);
  }

  /** A command reached once on every line is reached on line a exactly from line a on; there is no line 0. */
  lemma {:induction false} EveryLine(visits: seq<State>, a: nat)
    requires visits != [] && forall k :: 0 <= k < |visits| ==> visits[k].lnum == k + 1
    ensures InOrder(visits) && Times(visits, a) == if 1 <= a <= visits[|visits| - 1].lnum then 1 else 0
  {
    if |visits| > 1 {
      EveryLine(visits[..|visits| - 1], a);
    } else {
      assert Times([], a) == 0;
    }
  }

  /** On such visits `a,b` is what it looks like: the lines from a to max(a, b). */
  lemma OnEveryLine(n: Node, visits: seq<State>, a: nat, b: nat)
    requires n.ad1 == Some(Line(a)) && n.ad2 == Some(Line(b)) && a > 0
    requires visits != [] && forall k :: 0 <= k < |visits| ==> visits[k].lnum == k + 1
    ensures ExecutedLast(n, visits) <==> (a <= |visits| <= if a <= b then b else a) != n.negfl
  {
    EveryLine(visits, a);
    EveryLine(visits, b);
    NumberRange(n, visits, a, b);
  }

  /** With `3,2` a second visit on line 3 is not selected, and with `2,4` a second visit on line 4. */
  lemma TwiceOnALine(n: Node, m: Node, s: State, t: State)
    requires n.ad1 == Some(Line(3)) && n.ad2 == Some(Line(2)) && !n.negfl && s.lnum == 3
    requires m.ad1 == Some(Line(2)) && m.ad2 == Some(Line(4)) && !m.negfl && t.lnum == 4
    ensures ExecutedLast(n, [s]) && !ExecutedLast(n, [s, s])
    ensures var u := t.(lnum := 2); ExecutedLast(m, [u, t]) && !ExecutedLast(m, [u, t, t])
  {
    var u := t.(lnum := 2);
    assert [s][..0] == [] && [s, s][..1] == [s];
    assert [u][..0] == [] && [u, t][..1] == [u] && [u, t, t][..2] == [u, t];
  }

  // ----- any addresses -----

  /** Does a visit inside a range end it? */
  predicate Ends(n: Node, s: State)
    requires n.ad2.Some?
  {
    match n.ad2.value
    case Last => false
    case Line(m) => s.lnum >= m
    case Matching(e) => FirstMatch(e, s.linebuf).Match?
  }

  /** None of the visits between i and k ends a range. */
  predicate Unended(n: Node, visits: seq<State>, i: nat, k: nat)
    requires n.ad2.Some? && k <= |visits|
  {
    forall j :: i < j < k ==> !Ends(n, visits[j])
  }

  /** Visit k begins a range: it is one the first address stands for, and no range begun before is still open. */
  predicate Begins(n: Node, visits: seq<State>, k: nat)
    requires n.ad1.Some? && n.ad2.Some? && k < |visits|
    decreases k
  {
    && Evaluation.Matches(n.ad1.value, visits[k])
    && !exists i :: 0 <= i < k && Begins(n, visits, i) && Unended(n, visits, i, k)
  }

  /** A range begun before visit k has not ended. */
  predicate Within(n: Node, visits: seq<State>, k: nat)
    requires n.ad1.Some? && n.ad2.Some? && k <= |visits|
  {
    exists i :: 0 <= i < k && Begins(n, visits, i) && Unended(n, visits, i, k)
  }

  lemma WithinOnce(n: Node, visits: seq<State>, k: nat)
    requires n.ad1.Some? && n.ad2.Some? && k < |visits|
    ensures Within(n, visits, k + 1)
            <==> if Within(n, visits, k) then !Ends(n, visits[k]) else Evaluation.Matches(n.ad1.value, visits[k])
  {
    hide Ends, Evaluation.Matches;
    assert Begins(n, visits, k) <==> Evaluation.Matches(n.ad1.value, visits[k]) && !Within(n, visits, k);
    if Within(n, visits, k) {
      var i :| 0 <= i < k && Begins(n, visits, i) && Unended(n, visits, i, k);
      assert !Ends(n, visits[k]) ==> Unended(n, visits, i, k + 1);
    }
    if Within(n, visits, k + 1) {
      var i :| 0 <= i < k + 1 && Begins(n, visits, i) && Unended(n, visits, i, k + 1);
      assert i < k ==> Unended(n, visits, i, k) && !Ends(n, visits[k]);
    }
    if Begins(n, visits, k) {
      assert Unended(n, visits, k, k + 1);
    }
  }

  lemma {:induction false} InsideIsWithin(n: Node, visits: seq<State>, k: nat)
    requires n.ad1.Some? && n.ad1 != Some(Last) && n.ad2.Some? && k <= |visits|
    ensures InsideAfter(n, visits[..k]) <==> Within(n, visits, k)
  {
    hide Within, FirstMatch;
    if k == 0 {
      NoneWithin(n, visits);
    } else {
      InsideIsWithin(n, visits, k - 1);
      WithinOnce(n, visits, k - 1);
      assert visits[..k][..k - 1] == visits[..k - 1];
    }
  }

  lemma NoneWithin(n: Node, visits: seq<State>)
    requires n.ad1.Some? && n.ad2.Some?
    ensures !Within(n, visits, 0)
  {
  }

  /**
   * Which visits a range selects, whatever its addresses stand for: those that begin a range, and those between one
   * that has and the first one that ends it, both included; but an end given as a number is not reached behind its
   * line. With `$` as the first address only the last line is selected.
   */
  lemma AnyRange(n: Node, visits: seq<State>, k: nat)
    requires n.ad1.Some? && n.ad2.Some? && k < |visits|
    ensures ExecutedLast(n, visits[..k + 1])
            <==> (if n.ad1.value.Last? then visits[k].dolflag
                  else if Within(n, visits, k) then n.ad2.value.Line? ==> visits[k].lnum <= n.ad2.value.number
                  else Begins(n, visits, k)) != n.negfl
  {
    hide Within, FirstMatch;
    assert visits[..k + 1][..k] == visits[..k] && visits[..k + 1][k] == visits[k];
    if n.ad1.value.Last? {
      NeverInside(n, visits[..k]);
    } else {
      InsideIsWithin(n, visits, k);
      BeginsOutside(n, visits, k);
    }
  }

  lemma BeginsOutside(n: Node, visits: seq<State>, k: nat)
    requires n.ad1.Some? && n.ad2.Some? && k < |visits|
    ensures Begins(n, visits, k) <==> Evaluation.Matches(n.ad1.value, visits[k]) && !Within(n, visits, k)
  {
  }

  lemma {:induction false} NeverInside(n: Node, visits: seq<State>)
    requires n.ad1 == Some(Last)
    ensures !InsideAfter(n, visits)
    decreases |visits|
  {
    if visits != [] {
      NeverInside(n, visits[..|visits| - 1]);
    }
  }

  predicate Hits(e: Expr, s: State) {
    FirstMatch(e, s.linebuf).Match?
  }

  /**
   * `/a/,/b/`, when no visit is on a line that both patterns match: a visit is selected exactly if it is on a line that
   * a matches, or if there is one such before it with none on a line that b matches in between.
   */
  lemma MatchingRange(n: Node, visits: seq<State>, a: Expr, b: Expr, k: nat)
    requires n.ad1 == Some(Matching(a)) && n.ad2 == Some(Matching(b)) && k < |visits|
    requires forall j :: 0 <= j < |visits| ==> !(Hits(a, visits[j]) && Hits(b, visits[j]))
    ensures ExecutedLast(n, visits[..k + 1])
            <==> (|| Hits(a, visits[k])
                  || exists i :: 0 <= i < k && Hits(a, visits[i]) && NoHit(b, visits, i, k)) != n.negfl
  {
    hide Within, FirstMatch, Begins, Unended, NoHit;
    AnyRange(n, visits, k);
    BeginsOutside(n, visits, k);
    OpenSince(n, visits, a, b, k);
  }

  /** None of the visits between i and k is on a line that the pattern matches. */
  predicate NoHit(e: Expr, visits: seq<State>, i: nat, k: nat)
    requires k <= |visits|
  {
    forall j :: i < j < k ==> !Hits(e, visits[j])
  }

  lemma {:induction false} OpenSince(n: Node, visits: seq<State>, a: Expr, b: Expr, k: nat)
    requires n.ad1 == Some(Matching(a)) && n.ad2 == Some(Matching(b)) && k <= |visits|
    requires forall j :: 0 <= j < |visits| ==> !(Hits(a, visits[j]) && Hits(b, visits[j]))
    ensures Within(n, visits, k)
            <==> exists i :: 0 <= i < k && Hits(a, visits[i]) && NoHit(b, visits, i, k)
  {
    hide Within, FirstMatch;
    if k == 0 {
      NoneWithin(n, visits);
    } else {
      OpenSince(n, visits, a, b, k - 1);
      WithinOnce(n, visits, k - 1);
      var l := k - 1;
      if Hits(a, visits[l]) {
        assert NoHit(b, visits, l, k);
      } else if Within(n, visits, l) && !Hits(b, visits[l]) {
        var i :| 0 <= i < l && Hits(a, visits[i]) && NoHit(b, visits, i, l);
        assert NoHit(b, visits, i, k);
      }
      if i :| 0 <= i < k && Hits(a, visits[i]) && NoHit(b, visits, i, k) {
        assert i < l ==> NoHit(b, visits, i, l) && !Hits(b, visits[l]);
      }
    }
  }

  // ----- the visits of a run -----

  /** The states in which the loop of `execute` reaches the command at pc. */
  function LoopVisits(sc: Script, s: State, start: nat, n: nat, pc: nat): seq<State>
    requires ValidScript(sc) && ValidState(sc, s) && start <= |sc.nodes|
    decreases n
  {
    if start == |sc.nodes| || n == 0 then []
    else
      StepValid(sc, s, start);
      var (s', t) := Step(sc, s, start);
      (if start == pc then [s] else []) + if t.Goto? then LoopVisits(sc, s', t.pc, n - 1, pc) else []
  }

  /** The same for lines pushed one after the other. */
  function RunVisits(sc: Script, m: Machine, lines: seq<seq<byte>>, closed: bool, n: nat, pc: nat): seq<State>
    requires ValidScript(sc) && ValidMachine(sc, m) && Text(lines)
    decreases |lines|
  {
    if lines == [] || m.quit then []
    else
      var last := closed && |lines| == 1;
      var r := Execute(sc, m, lines[0], last, n);
      LoopVisits(sc, Load(m.s, lines[0], last), Start(m), n, pc)
      + if r.None? then [] else RunVisits(sc, r.value, lines[1..], closed, n, pc)
  }

  /** The flag of the command is at each visit what the visits before it have made it. */
  ghost predicate Flagged(node: Node, pc: nat, before: seq<State>, visits: seq<State>) {
    forall k :: 0 <= k < |visits| ==>
      pc < |visits[k].inar| && visits[k].inar[pc] == InsideAfter(node, before + visits[..k])
  }

  /** All on line l or a later one, in order. */
  ghost predicate OnFrom(l: nat, visits: seq<State>) {
    InOrder(visits) && forall k :: 0 <= k < |visits| ==> l <= visits[k].lnum
  }

  lemma StepFlag(sc: Script, s: State, start: nat, pc: nat)
    requires ValidScript(sc) && ValidState(sc, s) && start < |sc.nodes| && pc < |sc.nodes|
    ensures var s' := Step(sc, s, start).0;
            && s'.lnum == s.lnum && |s'.inar| == |s.inar|
            && s'.inar[pc] == if start == pc then Addressed(sc.nodes[pc], s, s.inar[pc]).1 else s.inar[pc]
  {
    hide Act;
    ActLeaves(sc, s.(inar := s.inar[start := Addressed(sc.nodes[start], s, s.inar[start]).1]), start);
  }

  lemma VisitsJoin(node: Node, pc: nat, before: seq<State>, a: seq<State>, b: seq<State>)
    requires Flagged(node, pc, before, a) && Flagged(node, pc, before + a, b)
    ensures Flagged(node, pc, before, a + b) && before + (a + b) == before + a + b
  {
    hide InsideAfter;
    forall k | 0 <= k < |a + b|
      ensures pc < |(a + b)[k].inar| && (a + b)[k].inar[pc] == InsideAfter(node, before + (a + b)[..k])
    {
      BeforeVisit(before, a, b, k);
    }
  }

  lemma BeforeVisit(before: seq<State>, a: seq<State>, b: seq<State>, k: nat)
    requires k < |a + b|
    ensures before + (a + b)[..k] == if k < |a| then before + a[..k] else before + a + b[..k - |a|]
  {
    if k < |a| {
      assert (a + b)[..k] == a[..k];
    }
  }

  lemma OneVisit(node: Node, pc: nat, before: seq<State>, s: State)
    requires pc < |s.inar| && s.inar[pc] == InsideAfter(node, before)
    ensures Flagged(node, pc, before, [s]) && InsideAfter(node, before + [s]) == Addressed(node, s, s.inar[pc]).1
  {
    assert before + [s][..0] == before;
    assert (before + [s])[..|before|] == before;
  }

  lemma {:induction false} LoopFlags(sc: Script, s: State, start: nat, n: nat, pc: nat, before: seq<State>)
    requires ValidScript(sc) && ValidState(sc, s) && start <= |sc.nodes| && pc < |sc.nodes|
    requires s.inar[pc] == InsideAfter(sc.nodes[pc], before)
    ensures var v, s' := LoopVisits(sc, s, start, n, pc), Loop(sc, s, start, n).0;
            && Flagged(sc.nodes[pc], pc, before, v) && (forall k :: 0 <= k < |v| ==> v[k].lnum == s.lnum)
            && s'.lnum == s.lnum && |s'.inar| == |s.inar| && s'.inar[pc] == InsideAfter(sc.nodes[pc], before + v)
    decreases n
  {
    hide Step, Flagged, InsideAfter, Addressed;
    NoVisit(sc.nodes[pc], pc, before);
    if start < |sc.nodes| && n > 0 {
      StepValid(sc, s, start);
      StepFlag(sc, s, start, pc);
      var (s', t) := Step(sc, s, start);
      var here := if start == pc then [s] else [];
      if start == pc {
        OneVisit(sc.nodes[pc], pc, before, s);
      }
      if t.Goto? {
        LoopFlags(sc, s', t.pc, n - 1, pc, before + here);
        VisitsJoin(sc.nodes[pc], pc, before, here, LoopVisits(sc, s', t.pc, n - 1, pc));
      } else {
        assert LoopVisits(sc, s, start, n, pc) == here;
      }
    }
  }

  lemma NoVisit(node: Node, pc: nat, before: seq<State>)
    ensures Flagged(node, pc, before, []) && before + [] == before
  {
  }

  /**
   * Along every run, the flag of a command is at each of its visits what the visits before it have made it, and the
   * visits come in the order of the lines: what is said above of visits is so said of runs.
   */
  lemma {:induction false} RunFlags(sc: Script, m: Machine, lines: seq<seq<byte>>, closed: bool, n: nat, pc: nat,
                                    before: seq<State>)
    requires ValidScript(sc) && ValidMachine(sc, m) && Text(lines) && pc < |sc.nodes|
    requires m.s.inar[pc] == InsideAfter(sc.nodes[pc], before)
    ensures var v := RunVisits(sc, m, lines, closed, n, pc);
            Flagged(sc.nodes[pc], pc, before, v) && OnFrom(m.s.lnum + 1, v)
    decreases |lines|
  {
    hide Flagged, InsideAfter, Loop, LoopVisits, Settle, RunVisits, Execute, OnFrom;
    NoVisit(sc.nodes[pc], pc, before);
    if lines == [] || m.quit {
      NoRun(sc, m, lines, closed, n, pc);
      OrderJoins(m.s.lnum + 1, [], []);
      assert [] + [] == RunVisits(sc, m, lines, closed, n, pc);
    } else {
      var last := closed && |lines| == 1;
      var v, r := LoopVisits(sc, Load(m.s, lines[0], last), Start(m), n, pc), Execute(sc, m, lines[0], last, n);
      LineFlags(sc, m, lines[0], last, n, pc, before);
      RunVisitsOnce(sc, m, lines, closed, n, pc);
      if r.Some? {
        RunFlags(sc, r.value, lines[1..], closed, n, pc, before + v);
        VisitsJoin(sc.nodes[pc], pc, before, v, RunVisits(sc, r.value, lines[1..], closed, n, pc));
        OrderJoins(m.s.lnum + 1, v, RunVisits(sc, r.value, lines[1..], closed, n, pc));
      } else {
        OrderJoins(m.s.lnum + 1, v, []);
        assert v + [] == v;
      }
    }
  }

  lemma OrderJoins(l: nat, a: seq<State>, b: seq<State>)
    requires (forall k :: 0 <= k < |a| ==> a[k].lnum == l) && (b == [] || OnFrom(l + 1, b))
    ensures OnFrom(l, a + b)
  {
  }

  /** One line pushed. */
  lemma LineFlags(sc: Script, m: Machine, line: seq<byte>, last: bool, n: nat, pc: nat, before: seq<State>)
    requires ValidScript(sc) && ValidMachine(sc, m) && NulFree(line) && pc < |sc.nodes|
    requires m.s.inar[pc] == InsideAfter(sc.nodes[pc], before)
    ensures ValidState(sc, Load(m.s, line, last))
    ensures var v, r := LoopVisits(sc, Load(m.s, line, last), Start(m), n, pc), Execute(sc, m, line, last, n);
            && Flagged(sc.nodes[pc], pc, before, v) && (forall k :: 0 <= k < |v| ==> v[k].lnum == m.s.lnum + 1)
            && (r.Some? ==>
                  r.value.s.lnum == m.s.lnum + 1 && r.value.s.inar[pc] == InsideAfter(sc.nodes[pc], before + v))
  {
    hide Flagged, InsideAfter, Loop, LoopVisits, Settle;
    var s := Load(m.s, line, last);
    LoopFlags(sc, s, Start(m), n, pc, before);
    if Execute(sc, m, line, last, n).Some? {
      SettleKeeps(sc, Loop(sc, s, Start(m), n).0, Loop(sc, s, Start(m), n).1);
    }
  }

  lemma NoRun(sc: Script, m: Machine, lines: seq<seq<byte>>, closed: bool, n: nat, pc: nat)
    requires ValidScript(sc) && ValidMachine(sc, m) && Text(lines) && (lines == [] || m.quit)
    ensures RunVisits(sc, m, lines, closed, n, pc) == []
  {
  }

  lemma RunVisitsOnce(sc: Script, m: Machine, lines: seq<seq<byte>>, closed: bool, n: nat, pc: nat)
    requires ValidScript(sc) && ValidMachine(sc, m) && Text(lines) && lines != [] && !m.quit
    ensures var last := closed && |lines| == 1;
            var s, r := Load(m.s, lines[0], last), Execute(sc, m, lines[0], last, n);
            && ValidState(sc, s) && Text(lines[1..])
            && var v := LoopVisits(sc, s, Start(m), n, pc);
               RunVisits(sc, m, lines, closed, n, pc)
               == if r.None? then v else v + RunVisits(sc, r.value, lines[1..], closed, n, pc)
  {
  }

  /** The end of a line leaves flags and line number as they are. */
  lemma SettleKeeps(sc: Script, s: State, t: Turn)
    requires !t.Goto?
    ensures Settle(sc, s, t).s.inar == s.inar && Settle(sc, s, t).s.lnum == s.lnum
  {
  }

  /** So in a run from the start a command is executed at a visit exactly when the visits so far say so. */
  lemma RunExecutes(sc: Script, lines: seq<seq<byte>>, closed: bool, n: nat, pc: nat, k: nat)
    requires ValidScript(sc) && Text(lines) && pc < |sc.nodes|
    requires k < |RunVisits(sc, Machine(Initial(sc), None, false), lines, closed, n, pc)|
    ensures var v, node := RunVisits(sc, Machine(Initial(sc), None, false), lines, closed, n, pc), sc.nodes[pc];
            && InOrder(v) && pc < |v[k].inar| && (v[k].inar[pc] ==> node.ad2.Some?)
            && (Executes(node, v[k], v[k].inar[pc]) <==> ExecutedLast(node, v[..k + 1]))
  {
    hide RunVisits, InsideAfter, ExecutedLast, Executes, Flagged, Execute;
    var v, node := RunVisits(sc, Machine(Initial(sc), None, false), lines, closed, n, pc), sc.nodes[pc];
    OutsideFirst(node);
    RunFlags(sc, Machine(Initial(sc), None, false), lines, closed, n, pc, []);
    FlagDecides(node, pc, v, k);
  }

  lemma OutsideFirst(node: Node)
    ensures !InsideAfter(node, [])
  {
  }

  lemma FlagDecides(node: Node, pc: nat, v: seq<State>, k: nat)
    requires Flagged(node, pc, [], v) && k < |v|
    ensures pc < |v[k].inar| && (v[k].inar[pc] ==> node.ad2.Some?)
    ensures Executes(node, v[k], v[k].inar[pc]) <==> ExecutedLast(node, v[..k + 1])
  {
    hide InsideAfter, Executes;
    assert [] + v[..k] == v[..k] && v[..k + 1][..k] == v[..k];
  }
}
