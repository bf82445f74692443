/** From the items of a script, through the nodes `fcomp` links, to the runs of `execute`. */
module CompiledScripts {
  import opened Options
  import opened Bytes
  import opened Script
  import opened Evaluation
  import opened PushPull
  import opened Traces
  import opened Blocks
  import opened ScriptTargets
  import ScriptCompiler

  type Items = seq<ScriptCompiler.Item>

  function CodeOf(c: Command): ScriptCompiler.Code {
    match c
    case Branch => ScriptCompiler.BCOM
    case Test => ScriptCompiler.TCOM
    case DeleteFirst => ScriptCompiler.CDCOM
    case _ => ScriptCompiler.OTHER
  }

  /** The script is what the list of nodes says, with positions in place of pointers. */
  ghost predicate ReadFrom(c: ScriptCompiler.Commands, sc: Script)
    reads c, c.Nodes()
  {
    && |c.nodes| == |sc.nodes| + 1
    && forall p :: 0 <= p < |sc.nodes| ==>
         var n := sc.nodes[p];
         && (n.lb1.Some? ==> n.lb1.value < |c.nodes|) && c.nodes[p].lb1 == ScriptCompiler.Ref(c.nodes, n.lb1)
         && c.nodes[p].negfl == n.negfl && c.nodes[p].command == CodeOf(n.command)
  }

  /** The script has a command for each item that is one, linked to what the item means. */
  ghost predicate Compiled(sc: Script, items: Items) {
    && |sc.nodes| == |Whole(items).kinds| == |ScriptCompiler.MarksOf(items)|
    && forall p :: 0 <= p < |sc.nodes| ==>
         && sc.nodes[p].lb1 == ScriptCompiler.Target(Whole(items), p)
         && ScriptCompiler.Mark(CodeOf(sc.nodes[p].command), sc.nodes[p].negfl) == ScriptCompiler.MarksOf(items)[p]
  }

  /** What `fcomp` leaves in memory, read as a script, is the items compiled. */
  lemma WhatIsLeft(c: ScriptCompiler.Commands, sc: Script, items: Items)
    requires c.Valid() && c.Marked() && c.seen == Whole(items) && c.marks == ScriptCompiler.MarksOf(items)
    requires ReadFrom(c, sc)
    ensures Compiled(sc, items)
  {
    hide ScriptCompiler.Target, ScriptCompiler.Sound, ScriptCompiler.Table, ScriptCompiler.LinksOf,
      ScriptCompiler.MarksOf;
    forall p | 0 <= p < |sc.nodes|
      ensures sc.nodes[p].lb1 == ScriptCompiler.Target(Whole(items), p)
    {
      assert ScriptCompiler.LinksOf(c.nodes)[p] == c.nodes[p].lb1;
    }
  }

  lemma MarksAreSlots(items: Items, i: nat)
    requires i <= |items|
    ensures |ScriptCompiler.MarksOf(items[..i])| == Slot(items, i)
  {
    hide ScriptCompiler.MarksOf, ScriptCompiler.RecordAll;
    StartsAreMarked(items, i);
  }

  lemma {:induction false} MarksKept(items: Items, i: nat, j: nat)
    requires i <= j <= |items|
    ensures ScriptCompiler.MarksOf(items[..i]) <= ScriptCompiler.MarksOf(items[..j])
    decreases j
  {
    if i < j {
      MarksKept(items, i, j - 1);
      assert items[..j][..j - 1] == items[..j - 1];
    }
  }

  /** The command of an item, where it stands in the script. */
  lemma CommandOf(sc: Script, items: Items, i: nat)
    requires Compiled(sc, items) && i < |items| && ScriptCompiler.MarkOf(items[i]) != []
    ensures Slot(items, i) < |sc.nodes|
    ensures var n := sc.nodes[Slot(items, i)];
            [ScriptCompiler.Mark(CodeOf(n.command), n.negfl)] == ScriptCompiler.MarkOf(items[i])
  {
    hide ScriptCompiler.Target, ScriptCompiler.RecordAll;
    MarksAreSlots(items, i);
    MarksKept(items, i + 1, |items|);
    assert items[..i + 1][..i] == items[..i] && items[..|items|] == items;
    assert ScriptCompiler.MarksOf(items[..i + 1])
        == ScriptCompiler.MarksOf(items[..i]) + ScriptCompiler.MarkOf(items[i]);
  }

  // ----- branches -----

  /**
   * A labelled branch of a finalized script goes to the command at its label, and does so exactly on the lines it is
   * meant for.
   */
  lemma BranchesGoToLabels(sc: Script, items: Items, i: nat, s: State) returns (j: nat)
    requires Compiled(sc, items) && Accepted(items) && ScriptCompiler.Finalized(Whole(items))
    requires ValidScript(sc) && ValidState(sc, s) && i < |items| && items[i].Jump? && items[i].name != []
    ensures j < |items| && items[j].Label? && items[j].name == items[i].name
    ensures var p := Slot(items, i);
            && p < |sc.nodes|
            && var taken := Addressed(sc.nodes[p], s, s.inar[p]).0 != items[i].neg && (items[i].test ==> s.sflag);
               Evaluation.Step(sc, s, p).1 == Goto(if taken then Slot(items, j) else p + 1)
  {
    hide ScriptCompiler.Target, ScriptCompiler.RecordAll, ScriptCompiler.MarksOf, Addressed;
    j := FinalizedBranches(items, i);
    CommandOf(sc, items, i);
    IsBranch(sc.nodes[Slot(items, i)].command);
  }

  lemma IsBranch(c: Command)
    ensures CodeOf(c) == ScriptCompiler.BCOM <==> c.Branch?
    ensures CodeOf(c) == ScriptCompiler.TCOM <==> c.Test?
  {
  }

  // ----- blocks -----

  /** Braces in the script become a block of the list. */
  lemma BracesAreBlocks(sc: Script, items: Items, i: nat, j: nat)
    requires Compiled(sc, items) && Accepted(items) && Encloses(items, i, j)
    ensures IsBlock(sc, Slot(items, i), Slot(items, j), items[i].neg)
  {
    hide ScriptCompiler.Target, ScriptCompiler.RecordAll, ScriptCompiler.MarksOf;
    BlocksReachTheirEnd(items, i, j);
    CommandOf(sc, items, i);
    IsBranch(sc.nodes[Slot(items, i)].command);
    ScriptTargets.Step(items, i);
    Stays(items, i + 1, j);
    Stays(items, j, |items|);
    BeforeAll(items);
  }

  /** Blocks lie inside each other or behind each other. */
  ghost predicate Nested(s: ScriptCompiler.Seen) {
    && (forall p :: p in s.closes ==> p < s.closes[p] <= |s.kinds|)
    && (forall p, q :: p in s.closes && q in s.closes && p < q ==> s.closes[p] <= q || s.closes[q] <= s.closes[p])
    && (forall p, d :: p in s.closes && 0 <= d < |s.open| && p <= s.open[d] ==> s.closes[p] <= s.open[d])
  }

  lemma NestedOnce(s: ScriptCompiler.Seen, item: ScriptCompiler.Item)
    requires ScriptCompiler.Sound(s) && Nested(s)
    ensures Nested(ScriptCompiler.Record(s, item))
  {
    hide ScriptCompiler.Mention, ScriptCompiler.NextTo;
    if item.Close? && s.open != [] {
      NestedClose(s, item, |s.open| - 1);
    }
  }

  lemma NestedClose(s: ScriptCompiler.Seen, item: ScriptCompiler.Item, top: nat)
    requires ScriptCompiler.Sound(s) && Nested(s) && item.Close? && |s.open| == top + 1
    ensures Nested(ScriptCompiler.Record(s, item))
  {
    hide ScriptCompiler.Sound, ScriptCompiler.Record;
    CloseRecords(s, item, top);
    var s' := ScriptCompiler.Record(s, item);
    assert forall p :: p in s.closes ==> s.open[top] < p || s.closes[p] <= s.open[top];
  }

  lemma CloseRecords(s: ScriptCompiler.Seen, item: ScriptCompiler.Item, top: nat)
    requires ScriptCompiler.Sound(s) && item.Close? && |s.open| == top + 1
    ensures var s' := ScriptCompiler.Record(s, item);
            s'.closes == s.closes[s.open[top] := |s.kinds|] && s'.open == s.open[..top] && s'.kinds == s.kinds
    ensures s.open[top] < |s.kinds| && s.open[top] !in s.closes && forall d :: 0 <= d < top ==> s.open[d] < s.open[top]
  {
    hide ScriptCompiler.Mention, ScriptCompiler.NextTo;
  }

  lemma {:induction false} AlwaysNested(items: Items, i: nat)
    requires i <= |items| && Accepted(items)
    ensures Nested(Before(items, i))
  {
    hide ScriptCompiler.Record, ScriptCompiler.Sound, ScriptCompiler.RecordAll, Nested;
    if i > 0 {
      AlwaysNested(items, i - 1);
      BeforeSound(items, i - 1);
      ScriptTargets.Step(items, i - 1);
      NestedOnce(Before(items, i - 1), items[i - 1]);
    } else {
      NothingNested(items);
    }
  }

  lemma NothingNested(items: Items)
    ensures Nested(Before(items, 0))
  {
  }

  /** No branch from outside a block leads into its body. */
  ghost predicate NoBranchInto(s: ScriptCompiler.Seen, open: nat, end: nat) {
    forall k :: 0 <= k < |s.kinds| && !(open < k < end) && s.kinds[k].To? ==>
      var t := ScriptCompiler.Target(s, k); t.None? || !(open < t.value < end)
  }

  /** Then nothing does: `D` goes to the first command, and other blocks end outside. */
  lemma NothingElseInto(s: ScriptCompiler.Seen, open: nat, k: nat)
    requires Nested(s) && open in s.closes && NoBranchInto(s, open, s.closes[open])
    requires k < |s.kinds| && !(open < k < s.closes[open])
    ensures var t := ScriptCompiler.Target(s, k); t.None? || !(open < t.value < s.closes[open])
  {
  }

  /** The block of the list, and nothing but its own node leading into it. */
  lemma BlockIsConfined(sc: Script, items: Items, i: nat, j: nat)
    requires Compiled(sc, items) && Accepted(items) && Encloses(items, i, j)
    requires NoBranchInto(Whole(items), Slot(items, i), Slot(items, j))
    ensures IsBlock(sc, Slot(items, i), Slot(items, j), items[i].neg) && Confined(sc, Slot(items, i), Slot(items, j))
  {
    hide ScriptCompiler.RecordAll, ScriptCompiler.MarksOf, NoBranchInto, Nested;
    var open, end := Slot(items, i), Slot(items, j);
    BracesAreBlocks(sc, items, i, j);
    BlocksReachTheirEnd(items, i, j);
    AlwaysNested(items, |items|);
    BeforeAll(items);
    CommandKept(items, i);
    forall p | 0 <= p < |sc.nodes| && !(open < p < end)
      ensures sc.nodes[p].lb1.None? || !(open < sc.nodes[p].lb1.value < end)
    {
      NothingElseInto(Whole(items), open, p);
    }
  }

  /**
   * In every run of a compiled script, over any lines and with `n` and `N` waiting for the next one wherever they do,
   * a command of a block's body is reached only by coming through its opening brace on a line that the block's address,
   * or its negation, selects, and without leaving the body since; if no branch crosses the block and the run starts
   * outside.
   */
  lemma BlocksAreEnteredByAddress(sc: Script, items: Items, i: nat, j: nat, m: Machine, lines: seq<seq<byte>>,
                                  closed: bool, n: nat, k: nat)
    returns (l: nat)
    requires Compiled(sc, items) && Accepted(items) && Encloses(items, i, j)
    requires NoBranchInto(Whole(items), Slot(items, i), Slot(items, j))
    requires ValidScript(sc) && ValidMachine(sc, m) && Text(lines) && !Within(Slot(items, i), Slot(items, j), Start(m))
    requires k < |RunTrace(sc, m, lines, closed, n)|
    requires Within(Slot(items, i), Slot(items, j), RunTrace(sc, m, lines, closed, n)[k].pc)
    ensures Slot(items, i) < |sc.nodes| && l < k
    ensures var p := RunTrace(sc, m, lines, closed, n)[l];
            p.pc == Slot(items, i) && Selects(sc, p.s, Slot(items, i), items[i].neg)
    ensures forall h :: l < h <= k ==> Within(Slot(items, i), Slot(items, j), RunTrace(sc, m, lines, closed, n)[h].pc)
  {
    hide RunTrace, Selects, Entered, Confined, NoBranchInto, Compiled, ScriptCompiler.RecordAll;
    var open, end := Slot(items, i), Slot(items, j);
    BlockIsConfined(sc, items, i, j);
    RunEntered(sc, m, lines, closed, n, open, end, items[i].neg);
    l := LastEntry(sc, RunTrace(sc, m, lines, closed, n), k, open, end, items[i].neg);
  }

  // ----- the links of a compiled script are valid -----

  /** What is given with a command: its addresses, and its texts and expressions. */
  ghost predicate ValidParts(n: Node) {
    && (n.ad1.Some? ==> ValidAddress(n.ad1.value))
    && (n.ad2.Some? ==> n.ad1.Some? && ValidAddress(n.ad2.value))
    && ValidCommand(n.command)
  }

  /** The commands that go back to the start are marked as `D`. */
  ghost predicate StartsMarked(kinds: seq<ScriptCompiler.Kind>, marks: seq<ScriptCompiler.Mark>) {
    && |kinds| == |marks|
    && forall p :: 0 <= p < |kinds| ==>
         (marks[p].command == ScriptCompiler.CDCOM <==> kinds[p] == ScriptCompiler.ToStart)
  }

  lemma StartsMarkedOnce(s: ScriptCompiler.Seen, item: ScriptCompiler.Item, marks: seq<ScriptCompiler.Mark>)
    requires StartsMarked(s.kinds, marks)
    ensures StartsMarked(ScriptCompiler.Record(s, item).kinds, marks + ScriptCompiler.MarkOf(item))
  {
  }

  lemma {:induction false} StartsAreMarked(items: Items, i: nat)
    requires i <= |items|
    ensures StartsMarked(Before(items, i).kinds, ScriptCompiler.MarksOf(items[..i]))
  {
    hide StartsMarked, ScriptCompiler.Record, ScriptCompiler.MarkOf;
    if i > 0 {
      StartsAreMarked(items, i - 1);
      ScriptTargets.Step(items, i - 1);
      assert items[..i][..i - 1] == items[..i - 1];
      StartsMarkedOnce(Before(items, i - 1), items[i - 1], ScriptCompiler.MarksOf(items[..i - 1]));
    } else {
      NothingMarked(items);
    }
  }

  lemma NothingMarked(items: Items)
    ensures StartsMarked(Before(items, 0).kinds, ScriptCompiler.MarksOf(items[..0]))
  {
  }

  /** Every link leads into the list or behind it, and that of `D` to the first command. */
  lemma LinksAreValid(sc: Script, items: Items, p: nat)
    requires Compiled(sc, items) && Accepted(items) && p < |sc.nodes|
    ensures var n := sc.nodes[p];
            (n.lb1.Some? ==> n.lb1.value <= |sc.nodes|) && (n.command.DeleteFirst? ==> n.lb1 == Some(0))
  {
    hide ScriptCompiler.RecordAll, ScriptCompiler.MarksOf;
    BeforeAll(items);
    BeforeSound(items, |items|);
    StartsAreMarked(items, |items|);
    assert items[..|items|] == items;
  }

  /** So a compiled script is valid exactly if what is given with its commands is. */
  lemma CompiledIsValid(sc: Script, items: Items)
    requires Compiled(sc, items) && Accepted(items)
    ensures ValidScript(sc) <==> forall p :: 0 <= p < |sc.nodes| ==> ValidParts(sc.nodes[p])
  {
    hide Compiled, ValidAddress, ValidCommand;
    forall p | 0 <= p < |sc.nodes|
      ensures ValidNode(sc.nodes[p], |sc.nodes|) <==> ValidParts(sc.nodes[p])
    {
      LinksAreValid(sc, items, p);
    }
  }
}
