/** Which scripts `fcomp` and `check_finalized` accept, and what is reported of the others, in terms of the script. */
module ScriptErrors {
  import opened Options
  import opened ScriptCompiler
  import opened ScriptTargets

  predicate Named(item: Item) {
    item.Label? || item.Jump?
  }

  /** The names of labels that the items mention. */
  function Names(items: seq<Item>): set<Name> {
    set k | 0 <= k < |items| && Named(items[k]) && items[k].name != [] :: items[k].name
  }

  predicate Labels(items: seq<Item>, name: Name) {
    exists k :: 0 <= k < |items| && items[k].Label? && items[k].name == name
  }

  /** How many blocks are open behind the items, if no brace closes more than there are. */
  function Depth(items: seq<Item>): int {
    if items == [] then 0
    else
      var last := items[|items| - 1];
      Depth(items[..|items| - 1]) + if last.Open? then 1 else if last.Close? then -1 else 0
  }

  /** The commands among the items. */
  function Commands(items: seq<Item>): nat {
    if items == [] then 0
    else
      var last := items[|items| - 1];
      Commands(items[..|items| - 1]) + if last.Label? || last.Close? then 0 else 1
  }

  /** What is wrong with item k, when nothing is with those before it. */
  function Fault(items: seq<Item>, k: nat): Option<Error>
    requires k < |items|
  {
    var before := items[..k];
    match items[k]
    case Label(name, addressed) =>
      if addressed then Some(AddressNotAllowed)
      else if |name| > 7 then Some(LabelTooLong)
      else if name == [] || Labels(before, name) then Some(DuplicateLabel)
      else if name !in Names(before) && |Names(before)| >= 48 then Some(TooManyLabels)
      else None
    case Jump(_, name, _) =>
      if |name| > 7 then Some(LabelTooLong)
      else if name != [] && name !in Names(before) && |Names(before)| >= 48 then Some(TooManyLabels)
      else None
    case Close(addressed) =>
      if addressed then Some(AddressNotAllowed) else if Depth(before) <= 0 then Some(TooManyClosed) else None
    case _ => None
  }

  // ----- what the compiler has recorded, in terms of the items -----

  ghost predicate Recorded(items: seq<Item>, s: Seen) {
    && (forall name :: name in s.names <==> name in Names(items))
    && (forall name :: name in s.defs <==> Labels(items, name))
    && |s.names| == |Names(items)| && |s.open| == Depth(items) && |s.kinds| == Commands(items)
  }

  lemma NamesSnoc(items: seq<Item>, x: Item)
    ensures Names(items + [x]) == Names(items) + if Named(x) && x.name != [] then {x.name} else {}
  {
    var more := items + [x];
    forall name | name in Names(items)
      ensures name in Names(more)
    {
      var k :| 0 <= k < |items| && Named(items[k]) && items[k].name != [] && items[k].name == name;
      assert more[k] == items[k];
    }
    if Named(x) && x.name != [] {
      assert more[|items|] == x;
    }
  }

  lemma LabelsSnoc(items: seq<Item>, x: Item, name: Name)
    ensures Labels(items + [x], name) <==> Labels(items, name) || (x.Label? && x.name == name)
  {
    var more := items + [x];
    if Labels(items, name) {
      var k :| 0 <= k < |items| && items[k].Label? && items[k].name == name;
      assert more[k] == items[k];
    }
    if x.Label? && x.name == name {
      assert more[|items|] == x;
    }
  }

  lemma CountsSnoc(items: seq<Item>, x: Item)
    ensures Depth(items + [x]) == Depth(items) + if x.Open? then 1 else if x.Close? then -1 else 0
    ensures Commands(items + [x]) == Commands(items) + if x.Label? || x.Close? then 0 else 1
  {
    assert (items + [x])[..|items|] == items;
  }

  lemma RecordedOnce(items: seq<Item>, s: Seen, x: Item)
    requires Recorded(items, s) && Refused(s, x).None?
    ensures Recorded(items + [x], Record(s, x))
  {
    hide Names, Labels, Depth, Commands;
    NamesSnoc(items, x);
    CountsSnoc(items, x);
    if Named(x) && x.name != [] {
      OneMore(Names(items), x.name);
    }
    forall name
      ensures Labels(items + [x], name) <==> Labels(items, name) || (x.Label? && x.name == name)
    {
      LabelsSnoc(items, x, name);
    }
  }

  lemma OneMore(names: set<Name>, name: Name)
    ensures |names + {name}| == |names| + if name in names then 0 else 1
  {
    if name in names {
      assert names + {name} == names;
    }
  }

  /** As long as nothing is wrong, the compiler refuses the next item exactly for what is wrong with it. */
  lemma FaultIsRefused(items: seq<Item>, k: nat, s: Seen)
    requires k < |items| && Recorded(items[..k], s)
    ensures Refused(s, items[k]) == Fault(items, k)
  {
    hide Names, Labels, Depth, Commands;
  }

  lemma NothingRecorded()
    ensures Recorded([], NOTHING_SEEN) && Refusal(NOTHING_SEEN, []).None?
  {
  }

  /** Nothing is wrong with the first i items. */
  predicate Clean(items: seq<Item>, i: nat)
    requires i <= |items|
  {
    forall k :: 0 <= k < i ==> Fault(items, k).None?
  }

  /** The first item with which something is wrong stops the compilation with just that error. */
  lemma {:induction false} FirstFault(items: seq<Item>, i: nat)
    requires i <= |items|
    ensures var r := Refusal(NOTHING_SEEN, items[..i]);
            if r.None? then Recorded(items[..i], Before(items, i)) && Clean(items, i)
            else exists k :: 0 <= k < i && Fault(items, k) == r && Clean(items, k)
  {
    hide Fault, Record, Refused, Recorded;
    if i == 0 {
      NothingRecorded();
    } else {
      FirstFault(items, i - 1);
      assert items[..i][..i - 1] == items[..i - 1] && items[..i - 1] + [items[i - 1]] == items[..i];
      if Refusal(NOTHING_SEEN, items[..i - 1]).None? {
        FaultIsRefused(items, i - 1, Before(items, i - 1));
        Step(items, i - 1);
        if Fault(items, i - 1).None? {
          RecordedOnce(items[..i - 1], Before(items, i - 1), items[i - 1]);
        }
      }
    }
  }

  /** `fcomp` accepts a script exactly if nothing is wrong with any of its items. */
  lemma AcceptsClean(items: seq<Item>)
    ensures Accepted(items) <==> Clean(items, |items|)
  {
    hide Fault, Recorded, Refusal;
    assert items[..|items|] == items;
    FirstFault(items, |items|);
  }

  /** Otherwise it reports what is wrong with the first item with which something is. */
  lemma ReportsFirstFault(items: seq<Item>, k: nat)
    requires k < |items| && Fault(items, k).Some? && Clean(items, k)
    ensures Refusal(NOTHING_SEEN, items) == Fault(items, k)
  {
    hide Fault, Recorded, Refusal;
    assert items[..|items|] == items;
    FirstFault(items, |items|);
    if Refusal(NOTHING_SEEN, items).Some? {
      var j :| 0 <= j < |items| && Fault(items, j) == Refusal(NOTHING_SEEN, items) && Clean(items, j);
      assert j <= k && k <= j;
    }
  }

  // ----- accepted scripts -----

  /** No label has an address, an empty name or one too long, and no two have the same. */
  predicate LabelsInOrder(items: seq<Item>) {
    && (forall k :: 0 <= k < |items| && items[k].Label? ==> !items[k].addressed && 0 < |items[k].name| <= 7)
    && (forall j, k :: 0 <= j < k < |items| && items[j].Label? && items[k].Label? ==> items[j].name != items[k].name)
  }

  /** Every closing brace has no address, and a block to close. */
  predicate BracesInOrder(items: seq<Item>) {
    forall k :: 0 <= k < |items| && items[k].Close? ==> !items[k].addressed && Depth(items[..k]) > 0
  }

  predicate JumpsInOrder(items: seq<Item>) {
    forall k :: 0 <= k < |items| && items[k].Jump? ==> |items[k].name| <= 7
  }

  lemma NamesGrow(items: seq<Item>, k: nat)
    requires k <= |items|
    ensures Names(items[..k]) <= Names(items) && |Names(items[..k])| <= |Names(items)|
  {
    Smaller(Names(items[..k]), Names(items));
  }

  lemma Smaller<T>(a: set<T>, b: set<T>)
    requires a <= b
    ensures |a| <= |b|
  {
    assert a + (b - a) == b;
  }

  lemma {:induction false} NamesFit(items: seq<Item>, i: nat)
    requires i <= |items| && Clean(items, i)
    ensures |Names(items[..i])| <= 48
  {
    hide Names, Labels, Depth;
    if i == 0 {
      NoNames();
      assert items[..0] == [];
    } else {
      NamesFit(items, i - 1);
      NamesSnoc(items[..i - 1], items[i - 1]);
      assert items[..i - 1] + [items[i - 1]] == items[..i];
      assert Fault(items, i - 1).None?;
    }
  }

  lemma NoNames()
    ensures Names([]) == {}
  {
  }

  /**
   * `fcomp` accepts a script exactly if its labels and branches are in order, its labels have at most 48 different
   * names, and its closing braces are in order; a branch may come before its label as well as behind it.
   */
  lemma AcceptedScripts(items: seq<Item>)
    ensures Accepted(items)
            <==> LabelsInOrder(items) && JumpsInOrder(items) && |Names(items)| <= 48 && BracesInOrder(items)
  {
    hide Names, Accepted, Depth, Fault;
    AcceptsClean(items);
    if Clean(items, |items|) {
      CleanInOrder(items);
    }
    if LabelsInOrder(items) && JumpsInOrder(items) && |Names(items)| <= 48 && BracesInOrder(items) {
      forall k | 0 <= k < |items|
        ensures Fault(items, k).None?
      {
        NoFault(items, k);
      }
    }
  }

  lemma CleanInOrder(items: seq<Item>)
    requires Clean(items, |items|)
    ensures LabelsInOrder(items) && JumpsInOrder(items) && |Names(items)| <= 48 && BracesInOrder(items)
  {
    hide Names, Depth;
    assert items[..|items|] == items;
    NamesFit(items, |items|);
    forall k | 0 <= k < |items|
      ensures items[k].Label? ==>
                !items[k].addressed && 0 < |items[k].name| <= 7 && !Labels(items[..k], items[k].name)
      ensures items[k].Jump? ==> |items[k].name| <= 7
      ensures items[k].Close? ==> !items[k].addressed && Depth(items[..k]) > 0
    {
      assert Fault(items, k).None?;
    }
    forall j, k | 0 <= j < k < |items| && items[j].Label? && items[k].Label?
      ensures items[j].name != items[k].name
    {
      assert items[..k][j] == items[j];
    }
  }

  lemma NoFault(items: seq<Item>, k: nat)
    requires LabelsInOrder(items) && JumpsInOrder(items) && |Names(items)| <= 48 && BracesInOrder(items) && k < |items|
    ensures Fault(items, k).None?
  {
    hide Names, Depth;
    NamesGrow(items, k + 1);
    NamesSnoc(items[..k], items[k]);
    assert items[..k] + [items[k]] == items[..k + 1];
  }

  /** An accepted script is complete exactly if every block is closed and every label branched to is there. */
  lemma FinalizedScripts(items: seq<Item>)
    requires Accepted(items)
    ensures Finalized(Whole(items))
            <==> Depth(items) == 0 && forall k :: 0 <= k < |items| && items[k].Jump? && items[k].name != [] ==>
                   Labels(items, items[k].name)
  {
    hide Accepted, Depth, Labels, Refusal;
    AcceptedRecorded(items, |items|);
    BeforeAll(items);
    assert items[..|items|] == items;
    NamesAreMentioned(items);
  }

  lemma NamesAreMentioned(items: seq<Item>)
    ensures (forall name :: name in Names(items) ==> Labels(items, name))
            <==> forall k :: 0 <= k < |items| && items[k].Jump? && items[k].name != [] ==> Labels(items, items[k].name)
  {
    forall k | 0 <= k < |items| && items[k].Jump? && items[k].name != []
      ensures items[k].name in Names(items)
    {
    }
  }

  lemma AcceptedRecorded(items: seq<Item>, i: nat)
    requires Accepted(items) && i <= |items|
    ensures Recorded(items[..i], Before(items, i))
  {
    hide Fault, Recorded;
    FirstFault(items, i);
    if Refusal(NOTHING_SEEN, items[..i]).Some? {
      RefusalFirst(NOTHING_SEEN, items, i);
    }
  }

  /**
   * A branch leads to the command behind its label: the slot of an item is the number of commands before it, and blocks
   * are open by counting braces.
   */
  lemma SlotCounts(items: seq<Item>, i: nat)
    requires Accepted(items) && i <= |items|
    ensures Slot(items, i) == Commands(items[..i]) && |Before(items, i).open| == Depth(items[..i])
  {
    AcceptedRecorded(items, i);
  }
}
