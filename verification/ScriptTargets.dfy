/**
 * What `fcomp` links, in terms of the script: branches to labels, blocks to their ends, and branches without a label.
 */
module ScriptTargets {
  import opened Options
  import opened ScriptCompiler

  /** What has been read before item i. */
  function Before(items: seq<Item>, i: nat): Seen
    requires i <= |items|
  {
    RecordAll(NOTHING_SEEN, items[..i])
  }

  /** The slot current at item i: that of the command, if the item is one. */
  function Slot(items: seq<Item>, i: nat): nat
    requires i <= |items|
  {
    |Before(items, i).kinds|
  }

  function Whole(items: seq<Item>): Seen {
    RecordAll(NOTHING_SEEN, items)
  }

  ghost predicate Accepted(items: seq<Item>) {
    Refusal(NOTHING_SEEN, items).None?
  }

  lemma Step(items: seq<Item>, i: nat)
    requires i < |items|
    ensures Before(items, i + 1) == Record(Before(items, i), items[i])
  {
    assert items[..i + 1][..i] == items[..i];
  }

  lemma BeforeAll(items: seq<Item>)
    ensures Before(items, |items|) == Whole(items)
  {
    assert items[..|items|] == items;
  }

  lemma AcceptedItem(items: seq<Item>, i: nat)
    requires i < |items| && Accepted(items)
    ensures Refused(Before(items, i), items[i]).None?
  {
    if Refusal(NOTHING_SEEN, items[..i + 1]).Some? {
      RefusalFirst(NOTHING_SEEN, items, i + 1);
    }
    assert items[..i + 1][..i] == items[..i];
  }

  lemma {:induction false} BeforeSound(items: seq<Item>, i: nat)
    requires i <= |items| && Accepted(items)
    ensures Sound(Before(items, i))
  {
    if i > 0 {
      BeforeSound(items, i - 1);
      AcceptedItem(items, i - 1);
      Step(items, i - 1);
      RecordSound(Before(items, i - 1), items[i - 1]);
    }
  }

  /** A command keeps its slot, and a label its place. */
  lemma {:induction false} Stays(items: seq<Item>, i: nat, j: nat)
    requires i <= j <= |items| && Accepted(items)
    ensures Before(items, i).kinds <= Before(items, j).kinds
    ensures forall name :: name in Before(items, i).defs ==>
              name in Before(items, j).defs && Before(items, j).defs[name] == Before(items, i).defs[name]
    decreases j - i
  {
    hide Record, RecordAll, Refusal, Refused;
    if i < j {
      Stays(items, i, j - 1);
      AcceptedItem(items, j - 1);
      Step(items, j - 1);
      StaysOnce(Before(items, j - 1), items[j - 1]);
    }
  }

  lemma StaysOnce(s: Seen, item: Item)
    requires Refused(s, item).None?
    ensures s.kinds <= Record(s, item).kinds
    ensures forall name :: name in s.defs ==> name in Record(s, item).defs && Record(s, item).defs[name] == s.defs[name]
  {
  }

  lemma CommandKept(items: seq<Item>, i: nat)
    requires i < |items| && Accepted(items)
    ensures items[i].Jump? ==>
              Slot(items, i) < |Whole(items).kinds| && Whole(items).kinds[Slot(items, i)] == To(items[i].name)
    ensures items[i].Open? ==> Slot(items, i) < |Whole(items).kinds| && Whole(items).kinds[Slot(items, i)] == Block
  {
    Step(items, i);
    Stays(items, i + 1, |items|);
    BeforeAll(items);
  }

  lemma LabelKept(items: seq<Item>, j: nat)
    requires j < |items| && Accepted(items) && items[j].Label?
    ensures items[j].name in Whole(items).defs && Whole(items).defs[items[j].name] == Slot(items, j)
  {
    Step(items, j);
    Stays(items, j + 1, |items|);
    BeforeAll(items);
  }

  /** Every branch to a label leads to the command at the label, whether the label comes before or after it. */
  lemma BranchesReachLabels(items: seq<Item>, i: nat, j: nat)
    requires Accepted(items) && i < |items| && j < |items|
    requires items[i].Jump? && items[j].Label? && items[i].name == items[j].name
    ensures Slot(items, i) < |Whole(items).kinds| && Target(Whole(items), Slot(items, i)) == Some(Slot(items, j))
  {
    CommandKept(items, i);
    LabelKept(items, j);
  }

  lemma {:induction false} LabelsAreDefined(items: seq<Item>, i: nat, name: Name) returns (j: nat)
    requires i <= |items| && Accepted(items) && name in Before(items, i).defs
    ensures j < i && items[j].Label? && items[j].name == name
  {
    Step(items, i - 1);
    if name in Before(items, i - 1).defs {
      j := LabelsAreDefined(items, i - 1, name);
    } else {
      j := i - 1;
    }
  }

  lemma {:induction false} MentionedNames(items: seq<Item>, i: nat, k: nat)
    requires k < i <= |items| && Accepted(items) && items[k].Jump? && items[k].name != []
    ensures items[k].name in Before(items, i).names
  {
    Step(items, i - 1);
    if k < i - 1 {
      MentionedNames(items, i - 1, k);
    }
  }

  /** Once the script is finalized, every branch with a label leads to a command at that label. */
  lemma FinalizedBranches(items: seq<Item>, i: nat) returns (j: nat)
    requires Accepted(items) && Finalized(Whole(items)) && i < |items| && items[i].Jump? && items[i].name != []
    ensures j < |items| && items[j].Label? && items[j].name == items[i].name
    ensures Slot(items, i) < |Whole(items).kinds| && Target(Whole(items), Slot(items, i)) == Some(Slot(items, j))
  {
    BeforeAll(items);
    MentionedNames(items, |items|, i);
    j := LabelsAreDefined(items, |items|, items[i].name);
    BranchesReachLabels(items, i, j);
  }

  /**
   * A branch without a label ends the cycle only when no such branch follows it in the script: otherwise it leads
   * to the next one, because the chain of these branches is never resolved.
   */
  lemma UnlabelledBranches(items: seq<Item>, i: nat)
    requires Accepted(items) && i < |items| && items[i].Jump? && items[i].name == []
    ensures var s, p := Whole(items), Slot(items, i);
            && p < |s.kinds|
            && (Target(s, p).None? <==> forall q :: p < q < |s.kinds| ==> s.kinds[q] != To([]))
            && (Target(s, p).Some? ==> p < Target(s, p).value < |s.kinds| && s.kinds[Target(s, p).value] == To([]))
  {
    CommandKept(items, i);
    BeforeAll(items);
    BeforeSound(items, |items|);
    assert [] !in Whole(items).defs;
  }

  /** An example: of two branches without a label, the first leads to the second. */
  lemma TwoUnlabelled()
    ensures var items := [Jump(false, [], false), Plain(false), Jump(false, [], false)];
            Accepted(items) && Target(Whole(items), 0) == Some(2)
  {
    var items := [Jump(false, [], false), Plain(false), Jump(false, [], false)];
    assert items[..2][..1] == items[..1] && items[..1][..0] == [] && items[..2][1] == items[1];
    assert Before(items, 1) == Record(NOTHING_SEEN, items[0]) by { Step(items, 0); }
    assert Before(items, 2) == Record(Before(items, 1), items[1]) by { Step(items, 1); }
    assert Before(items, 3) == Record(Before(items, 2), items[2]) by { Step(items, 2); }
    BeforeAll(items);
    assert Whole(items).kinds == [To([]), Other, To([])];
    assert Refusal(NOTHING_SEEN, items[..1]).None? && Refusal(NOTHING_SEEN, items[..2]).None?;
    assert items[..2] == items[..|items| - 1] && items[..3] == items;
  }

  // ----- blocks -----

  /** Item j closes the block that item i opens: in between, the block stays open. */
  ghost predicate Encloses(items: seq<Item>, i: nat, j: nat) {
    && i < j < |items| && items[i].Open? && items[j].Close?
    && |Before(items, j).open| == |Before(items, i).open| + 1
    && forall k :: i < k < j ==> |Before(items, k).open| > |Before(items, i).open|
  }

  /** An item that does not close the block leaves it where it is. */
  lemma OpenOnce(s: Seen, item: Item, h: nat)
    requires h < |s.open| && h < |Record(s, item).open|
    ensures Record(s, item).open[h] == s.open[h]
  {
  }

  lemma {:induction false} StillOpen(items: seq<Item>, i: nat, j: nat, k: nat)
    requires Accepted(items) && Encloses(items, i, j) && i < k <= j
    ensures var h := |Before(items, i).open|; |Before(items, k).open| > h && Before(items, k).open[h] == Slot(items, i)
    decreases k
  {
    hide Record, RecordAll, Refusal;
    Step(items, k - 1);
    if k > i + 1 {
      StillOpen(items, i, j, k - 1);
      OpenOnce(Before(items, k - 1), items[k - 1], |Before(items, i).open|);
    } else {
      Opened(Before(items, i), items[i]);
    }
  }

  lemma Opened(s: Seen, item: Item)
    requires item.Open?
    ensures Record(s, item).open == s.open + [|s.kinds|]
  {
  }

  /** A block that has been closed is not closed again. */
  lemma ClosedOnce(s: Seen, item: Item, p: nat)
    requires Sound(s) && p in s.closes
    ensures p in Record(s, item).closes && Record(s, item).closes[p] == s.closes[p]
  {
  }

  lemma {:induction false} ClosedStays(items: seq<Item>, p: nat, j: nat, k: nat)
    requires Accepted(items) && j <= k <= |items| && p in Before(items, j).closes
    ensures p in Before(items, k).closes && Before(items, k).closes[p] == Before(items, j).closes[p]
    decreases k - j
  {
    hide Record, RecordAll, Refusal, Sound;
    if j < k {
      ClosedStays(items, p, j, k - 1);
      BeforeSound(items, k - 1);
      Step(items, k - 1);
      ClosedOnce(Before(items, k - 1), items[k - 1], p);
    }
  }

  /** The branch around a block leads to the command current at its closing brace. */
  lemma BlocksReachTheirEnd(items: seq<Item>, i: nat, j: nat)
    requires Accepted(items) && Encloses(items, i, j)
    ensures Slot(items, i) < |Whole(items).kinds| && Target(Whole(items), Slot(items, i)) == Some(Slot(items, j))
  {
    CommandKept(items, i);
    StillOpen(items, i, j, j);
    Step(items, j);
    ClosedStays(items, Slot(items, i), j + 1, |items|);
    BeforeAll(items);
  }
}
