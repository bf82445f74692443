/** `sed_step`: the leftmost match on a line, with its fast path for patterns starting in a plain character. */
module Stepper {
  import opened Options
  import opened Bytes
  import opened Program
  import opened MatchSpec
  import opened Matcher

  datatype Match = NoMatch | Match(start: nat, end: nat, spans: Spans)

  /** The match with the least starting position from i on. */
  function Scan(prog: seq<Instr>, line: seq<byte>, i: nat, locs: Option<nat>, spans: Spans): (m: Match)
    requires i <= |line|
    ensures m.Match? ==> i <= m.start <= |line| && Run(prog, line, m.start, locs, spans) == Found(m.end, m.spans)
    ensures m.Match? ==> forall k :: i <= k < m.start ==> Run(prog, line, k, locs, spans).Fail?
    ensures m.NoMatch? ==> forall k :: i <= k <= |line| ==> Run(prog, line, k, locs, spans).Fail?
    decreases |line| - i
  {
    var r := Run(prog, line, i, locs, spans);
    if r.Found? then Match(i, r.end, r.spans)
    else if i < |line| then Scan(prog, line, i + 1, locs, spans)
    else NoMatch
  }

  /** What `sed_step` looks for: a pattern starting in `^` is tried at i only. */
  function Step(circf: bool, prog: seq<Instr>, line: seq<byte>, i: nat, locs: Option<nat>, spans: Spans): Match
    requires i <= |line|
  {
    if circf then
      var r := Run(prog, line, i, locs, spans);
      if r.Found? then Match(i, r.end, r.spans) else NoMatch
    else Scan(prog, line, i, locs, spans)
  }

  lemma {:induction false} ScanFrom(prog: seq<Instr>, line: seq<byte>, i: nat, k: nat, locs: Option<nat>, spans: Spans)
    requires i <= k <= |line|
    requires forall j :: i <= j < k ==> Run(prog, line, j, locs, spans).Fail?
    ensures Scan(prog, line, i, locs, spans) == Scan(prog, line, k, locs, spans)
    decreases k - i
  {
    if i < k {
      ScanFrom(prog, line, i + 1, k, locs, spans);
    }
  }

  /**
   * `sed_step`. The plain scan and the fast path report the same match: the least starting position at
   * which the program gets through, with loc1, loc2 and the group lists set as the matcher finds them there.
   */
  method SedStep(line: seq<byte>, p1: nat, code: seq<byte>, p2: nat, circf: bool, vars: StepVars,
                 ghost prog: seq<Instr>)
    returns (ok: bool)
    requires vars.Ready(prog, [], 0, line, p1, code, p2)
    modifies vars`loc1, vars`loc2, vars`braslist, vars`braelist, vars`low, vars`size
    ensures vars.Valid()
    ensures ok <==> Step(circf, prog, line, p1, vars.locs, old(vars.Spans())).Match?
    ensures ok ==>
              Step(circf, prog, line, p1, vars.locs, old(vars.Spans())) == Match(vars.loc1, vars.loc2, vars.Spans())
  {
    if circf {
      vars.loc1 := p1;
      ok := vars.Advance(line, p1, code, p2, prog, [], 0);
      return;
    }
    DecodeHead(prog, code, p2);
    if code[p2] == CCHR {
      ok := FastScan(line, p1, code, p2, vars, prog);
    } else {
      ok := PlainScan(line, p1, code, p2, vars, prog);
    }
  }

  /** The first-character fast path: only positions holding the pattern's first character are tried. */
  method FastScan(line: seq<byte>, p0: nat, code: seq<byte>, p2: nat, vars: StepVars, ghost prog: seq<Instr>)
    returns (ok: bool)
    requires vars.Ready(prog, [], 0, line, p0, code, p2) && p2 < |code| && code[p2] == CCHR
    modifies vars`loc1, vars`loc2, vars`braslist, vars`braelist, vars`low, vars`size
    ensures vars.Valid()
    ensures ok <==> Scan(prog, line, p0, vars.locs, old(vars.Spans())).Match?
    ensures ok ==> Scan(prog, line, p0, vars.locs, old(vars.Spans())) == Match(vars.loc1, vars.loc2, vars.Spans())
  {
    var p1: nat := p0;
    ghost var before := vars.Spans();
    FirstCharacter(prog, code, p2);
    var c := code[p2 + 1];
    while true
      invariant p0 <= p1 <= |line| && vars.Ready(prog, [], 0, line, p1, code, p2)
      invariant Agree(before, vars.Spans(), [], 0, Groups(prog))
      invariant forall j :: p0 <= j < p1 ==> Run(prog, line, j, vars.locs, before).Fail?
      decreases |line| - p1
    {
      if At(line, p1) == c {
        ok := Attempt(line, p1, code, p2, vars, prog, before);
        if ok {
          ScanFrom(prog, line, p0, p1, vars.locs, before);
          vars.loc1 := p1;
          return true;
        }
      }
      if At(line, p1) == 0 {
        return false;
      }
      p1 := p1 + 1;
    }
  }

  method PlainScan(line: seq<byte>, p0: nat, code: seq<byte>, p2: nat, vars: StepVars, ghost prog: seq<Instr>)
    returns (ok: bool)
    requires vars.Ready(prog, [], 0, line, p0, code, p2)
    modifies vars`loc1, vars`loc2, vars`braslist, vars`braelist, vars`low, vars`size
    ensures vars.Valid()
    ensures ok <==> Scan(prog, line, p0, vars.locs, old(vars.Spans())).Match?
    ensures ok ==> Scan(prog, line, p0, vars.locs, old(vars.Spans())) == Match(vars.loc1, vars.loc2, vars.Spans())
  {
    var p1: nat := p0;
    ghost var before := vars.Spans();
    while true
      invariant p0 <= p1 <= |line| && vars.Ready(prog, [], 0, line, p1, code, p2)
      invariant Agree(before, vars.Spans(), [], 0, Groups(prog))
      invariant forall j :: p0 <= j < p1 ==> Run(prog, line, j, vars.locs, before).Fail?
      decreases |line| - p1
    {
      ok := Attempt(line, p1, code, p2, vars, prog, before);
      if ok {
        ScanFrom(prog, line, p0, p1, vars.locs, before);
        vars.loc1 := p1;
        return true;
      }
      if At(line, p1) == 0 {
        return false;
      }
      p1 := p1 + 1;
    }
  }

  /** Code starting in a bare CCHR is a program whose first character must be its operand. */
  lemma FirstCharacter(prog: seq<Instr>, code: seq<byte>, p2: nat)
    requires WellFormed(prog, [], 0) && p2 < |code| && Encode(prog) <= code[p2..] && code[p2] == CCHR
    ensures prog[0].Item? && prog[0].quant == Once && p2 + 1 < |code| && prog[0].atom == Chr(code[p2 + 1])
    ensures code[p2 + 1] != 0
  {
    DecodeHead(prog, code, p2);
    DecodeItem(prog[0].atom, Once, code, p2);
    assert Operand(prog[0].atom)[0] == code[p2 + 1..][0];
  }

  /** One call of `_advance` from `sed_step`, whatever earlier attempts left in the group lists. */
  method Attempt(line: seq<byte>, p1: nat, code: seq<byte>, p2: nat, vars: StepVars, ghost prog: seq<Instr>,
                 ghost before: Spans)
    returns (ok: bool)
    requires vars.Ready(prog, [], 0, line, p1, code, p2)
    requires Agree(before, vars.Spans(), [], 0, Groups(prog))
    modifies vars`loc2, vars`braslist, vars`braelist, vars`low, vars`size
    ensures vars.Valid()
    ensures ok <==> Run(prog, line, p1, vars.locs, before).Found?
    ensures ok ==> Run(prog, line, p1, vars.locs, before) == Found(vars.loc2, vars.Spans())
    ensures !ok ==> Agree(before, vars.Spans(), [], 0, Groups(prog)) && vars.loc2 == old(vars.loc2)
  {
    StaleSpans(prog, [], 0, line, p1, vars.locs, before, vars.Spans());
    ghost var now := vars.Spans();
    ok := vars.Advance(line, p1, code, p2, prog, [], 0);
    if !ok {
      AgreeTrans(before, now, vars.Spans(), [], 0, [], 0, Groups(prog));
    }
  }
}
