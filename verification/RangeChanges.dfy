/** `c` with two line numbers: which lines it takes away, and whether its text is ever written. */
module RangeChanges {
  import opened Options
  import opened Bytes
  import opened Script
  import opened Evaluation
  import opened PushPull
  import opened Chunks
  import opened Substitution
  import opened Filters
  import opened Idioms

  /** `a,bc` with that text. */
  function Changer(a: nat, b: nat, text: seq<byte>): Script {
    Script([Node(Some(Line(a)), Some(Line(b)), false, Change(text), None)], false)
  }

  /** Is line k one of those from line a to the larger of a and b? */
  predicate InRange(a: nat, b: nat, k: nat) {
    a <= k && (k <= b || k == a)
  }

  /** Does the source take the range to go on behind line k? */
  predicate GoesOn(a: nat, b: nat, k: nat) {
    a <= k && (k < b || k == a)
  }

  /** What is written for a line. */
  function Changed(a: nat, b: nat, text: seq<byte>, line: seq<byte>, k: nat, last: bool): seq<byte> {
    if !InRange(a, b, k) then line + [NEWLINE] else if last || !GoesOn(a, b, k) then text + [NEWLINE] else []
  }

  ghost predicate Inside(a: nat, b: nat, m: Machine, done: seq<seq<byte>>) {
    |m.s.inar| == 1 && (m.s.inar[0] <==> |done| > 0 && GoesOn(a, b, |done|))
  }

  lemma ChangeStep(a: nat, b: nat, text: seq<byte>, s: State)
    requires var sc := Changer(a, b, text); ValidScript(sc) && ValidState(sc, s)
    requires a > 0 && s.lnum > 0 && s.inar[0] == (s.lnum > 1 && GoesOn(a, b, s.lnum - 1))
    ensures var s1 := s.(inar := [GoesOn(a, b, s.lnum)]);
            Step(Changer(a, b, text), s, 0)
            == if !InRange(a, b, s.lnum) then (s1, Goto(1))
               else (if s.dolflag || !GoesOn(a, b, s.lnum) then WriteLine(s1, text) else s1, EndCycle(true))
  {
    hide WriteLine;
    var n := Changer(a, b, text).nodes[0];
    assert Addressed(n, s, s.inar[0]) == (InRange(a, b, s.lnum), GoesOn(a, b, s.lnum));
    assert s.inar[0 := GoesOn(a, b, s.lnum)] == [GoesOn(a, b, s.lnum)];
  }

  lemma ChangeExecutes(a: nat, b: nat, text: seq<byte>, m: Machine, done: seq<seq<byte>>, last: bool, n: nat)
    requires var sc := Changer(a, b, text);
             Proper(done) && done != [] && ValidScript(sc) && Between(sc, m, done[..|done| - 1]) && n >= 1
    requires a > 0 && Inside(a, b, m, done[..|done| - 1])
    ensures NulFree(Current(done))
    ensures var r := Execute(Changer(a, b, text), m, Current(done), last, n);
            && r.Some? && Between(Changer(a, b, text), r.value, done) && Inside(a, b, r.value, done)
            && r.value.s.out == m.s.out + Changed(a, b, text, Current(done), |done|, last)
  {
    hide Step, Settle, Loop, Load, WriteAll, Passed, GoesOn, InRange;
    var sc := Changer(a, b, text);
    Loaded(sc, m, done, last);
    var s := Load(m.s, Current(done), last);
    ChangeStep(a, b, text, s);
    OneExecutes(sc, m, done, last, n);
    var (s', t) := Step(sc, s, 0);
    Settled(sc, s', t.EndCycle?);
    WriteOne([]);
    PassedIs(s.linebuf);
    NothingAdded(s'.out, Passed(false, s.linebuf));
    NothingAdded(s'.out, []);
    Assoc(s.out, text, [NEWLINE]);
  }

  // ----- the whole text -----

  function Larger(a: nat, b: nat): nat {
    if a < b then b else a
  }

  /** The lines from the k-th on, but those from line a to line b, in whose place the text is written, or nothing. */
  function Without(a: nat, b: nat, text: seq<byte>, lines: seq<seq<byte>>, k: nat): seq<byte>
    requires 1 <= a <= |lines| && k <= |lines|
  {
    var end := if Larger(a, b) < |lines| then Larger(a, b) else |lines|;
    if k < a then
      Unlines(lines[k..a - 1]) + (if a < b || a == |lines| then text + [NEWLINE] else []) + Unlines(lines[end..])
    else if k < end then text + [NEWLINE] + Unlines(lines[end..])
    else Unlines(lines[k..])
  }

  lemma {:induction false} EachWithout(w: Writer, a: nat, b: nat, text: seq<byte>, lines: seq<seq<byte>>, k: nat)
    requires 1 <= a <= |lines| && k <= |lines|
    requires forall done: seq<seq<byte>>, last: bool ::
               w(done, last) == Changed(a, b, text, Current(done), |done|, last)
    ensures Each(w, lines, k) == Without(a, b, text, lines, k)
    decreases |lines| - k
  {
    hide Unlines, Without, Changed, Current;
    if k < |lines| {
      EachWithout(w, a, b, text, lines, k + 1);
      CurrentIs(lines, k);
      WithoutOnce(a, b, text, lines, k);
    } else {
      NothingLeft(a, b, text, lines);
    }
  }

  lemma CurrentIs(lines: seq<seq<byte>>, k: nat)
    requires k < |lines|
    ensures Current(lines[..k + 1]) == lines[k]
  {
  }

  lemma NothingLeft(a: nat, b: nat, text: seq<byte>, lines: seq<seq<byte>>)
    requires 1 <= a <= |lines|
    ensures Without(a, b, text, lines, |lines|) == []
  {
    assert lines[|lines|..] == [];
    NothingUnlined();
  }

  lemma WithoutOnce(a: nat, b: nat, text: seq<byte>, lines: seq<seq<byte>>, k: nat)
    requires 1 <= a <= |lines| && k < |lines|
    ensures Without(a, b, text, lines, k)
            == Changed(a, b, text, lines[k], k + 1, k + 1 == |lines|) + Without(a, b, text, lines, k + 1)
  {
    hide Unlines;
    var end := if Larger(a, b) < |lines| then Larger(a, b) else |lines|;
    NothingUnlined();
    if k + 1 < a {
      UnlinesFirst(lines, k, a - 1);
      ConcatThree(lines[k] + [NEWLINE], Unlines(lines[k + 1..a - 1]),
                  if a < b || a == |lines| then text + [NEWLINE] else [], Unlines(lines[end..]));
    } else if k + 1 == a {
      assert lines[k..a - 1] == [];
      StartsRange(text, Unlines(lines[end..]), a < b || a == |lines|);
    } else if k >= end {
      UnlinesFirst(lines, k, |lines|);
      assert lines[k..|lines|] == lines[k..] && lines[k + 1..|lines|] == lines[k + 1..];
    } else {
      StartsRange(text, Unlines(lines[end..]), true);
    }
  }

  lemma UnlinesFirst(lines: seq<seq<byte>>, k: nat, j: nat)
    requires k < j <= |lines|
    ensures Unlines(lines[k..j]) == lines[k] + [NEWLINE] + Unlines(lines[k + 1..j])
  {
    assert lines[k..j][1..] == lines[k + 1..j];
  }

  lemma ConcatThree(x: seq<byte>, y: seq<byte>, z: seq<byte>, v: seq<byte>)
    ensures x + y + z + v == x + (y + z + v)
  {
  }

  lemma StartsRange(text: seq<byte>, rest: seq<byte>, written: bool)
    ensures [] + (if written then text + [NEWLINE] else []) + rest == (if written then text + [NEWLINE] else []) + rest
    ensures [] + (text + [NEWLINE] + rest) == text + [NEWLINE] + rest && [] + rest == rest
  {
  }

  /**
   * `a,bc` takes away the lines from a to the larger of a and b. Its text is written in their place if a is less than
   * b, or a is the last line, and not at all otherwise: a range of one line is still taken to go on behind it.
   */
  lemma ChangesRange(a: nat, b: nat, text: seq<byte>, input: seq<byte>, n: nat)
    requires NulFree(text) && NulFree(input) && n >= 1 && 1 <= a <= |Lines(input)|
    ensures ValidScript(Changer(a, b, text))
    ensures var lines := Lines(input);
            var end := if Larger(a, b) < |lines| then Larger(a, b) else |lines|;
            var r := Pushed(Changer(a, b, text), input, n);
            && r.Some?
            && r.value.s.out
               == Unlines(lines[..a - 1]) + (if a < b || a == |lines| then text + [NEWLINE] else [])
                  + Unlines(lines[end..])
  {
    hide Lines, Each, Execute, Unlines, Changed;
    var sc := Changer(a, b, text);
    var w: Writer := (done, last) => Changed(a, b, text, Current(done), |done|, last);
    var inv: (Machine, seq<seq<byte>>) -> bool :=
      (m: Machine, done: seq<seq<byte>>) =>
        |m.s.inar| == 1 && (m.s.inar[0] <==> |done| > 0 && GoesOn(a, b, |done|));
    forall m: Machine, done: seq<seq<byte>>, last: bool
      | Proper(done) && done != [] && Between(sc, m, done[..|done| - 1]) && inv(m, done[..|done| - 1])
      ensures WritesLine(sc, n, inv, w, m, done, last)
    {
      ChangeExecutes(a, b, text, m, done, last, n);
    }
    FilterText(sc, n, inv, w, input);
    EachWithout(w, a, b, text, Lines(input), 0);
    assert Lines(input)[0..a - 1] == Lines(input)[..a - 1];
  }
}
