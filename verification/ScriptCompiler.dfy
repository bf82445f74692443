/** `fcomp`: the list of commands, its blocks, and the labels patched in while the script is read. */
module ScriptCompiler {
  import opened Options
  import opened Bytes

  type Name = seq<byte>

  /** SED_LABSIZE, SED_DEPTH, and the characters of a label that fit into `asc` before its terminator. */
  const LABELS: nat := 50
  const DEPTH: nat := 20
  const NAME: nat := 7

  /** A command of the script as it is read: what matters here are labels, branches and braces. */
  datatype Item =
    | Label(name: Name, addressed: bool)
    | Jump(test: bool, name: Name, neg: bool)
    | Open(neg: bool)
    | Close(addressed: bool)
    | Restart(neg: bool)
    | Plain(neg: bool)

  /** What a node of the list stands for. */
  datatype Kind = To(name: Name) | Block | ToStart | Other

  /** What has been read: the commands, the labels with the slots they stand at, the closed and the open blocks. */
  datatype Seen = Seen(kinds: seq<Kind>, names: seq<Name>, defs: map<Name, nat>, closes: map<nat, nat>, open: seq<nat>)

  const NOTHING_SEEN: Seen := Seen([], [], map[], map[], [])

  function Mention(names: seq<Name>, name: Name): seq<Name> {
    if name == [] || name in names then names else names + [name]
  }

  function Record(s: Seen, item: Item): Seen {
    match item
    case Label(name, _) => s.(names := Mention(s.names, name), defs := s.defs[name := |s.kinds|])
    case Jump(_, name, _) => s.(kinds := s.kinds + [To(name)], names := Mention(s.names, name))
    case Open(_) => s.(kinds := s.kinds + [Block], open := s.open + [|s.kinds|])
    case Close(_) =>
      if s.open == [] then s
      else s.(closes := s.closes[s.open[|s.open| - 1] := |s.kinds|], open := s.open[..|s.open| - 1])
    case Restart(_) => s.(kinds := s.kinds + [ToStart])
    case Plain(_) => s.(kinds := s.kinds + [Other])
  }

  function RecordAll(s: Seen, items: seq<Item>): Seen {
    if items == [] then s else Record(RecordAll(s, items[..|items| - 1]), items[|items| - 1])
  }

  /** The first branch to name from slot p on. */
  function NextTo(kinds: seq<Kind>, p: nat, name: Name): (r: Option<nat>)
    requires p <= |kinds|
    ensures r.Some? ==> p <= r.value < |kinds| && kinds[r.value] == To(name) && forall q :: p <= q < r.value ==>
              kinds[q] != To(name)
    ensures r.None? ==> forall q :: p <= q < |kinds| ==> kinds[q] != To(name)
    decreases |kinds| - p
  {
    if p == |kinds| then None else if kinds[p] == To(name) then Some(p) else NextTo(kinds, p + 1, name)
  }

  /**
   * Where the link of the command at slot p leads: a branch to its label, or to the next branch waiting for the
   * same label; a block to the command behind it. Branches without a label wait forever.
   */
  function Target(s: Seen, p: nat): Option<nat>
    requires p < |s.kinds|
  {
    match s.kinds[p]
    case To(name) => if name in s.defs then Some(s.defs[name]) else NextTo(s.kinds, p + 1, name)
    case Block => if p in s.closes then Some(s.closes[p]) else None
    case ToStart => Some(0)
    case Other => None
  }

  /** What `check_finalized` accepts: no block is open, and every label mentioned is defined. */
  predicate Finalized(s: Seen) {
    s.open == [] && forall name :: name in s.names ==> name in s.defs
  }

  /** What holds of all that has been read. */
  ghost predicate Sound(s: Seen) {
    && (forall name :: name in s.defs ==> name in s.names && s.defs[name] <= |s.kinds|)
    && (forall k :: 0 <= k < |s.names| ==> s.names[k] != [] && |s.names[k]| <= NAME)
    && (forall j, k :: 0 <= j < k < |s.names| ==> s.names[j] != s.names[k])
    && (forall k :: 0 <= k < |s.names| ==> s.names[k] in s.defs || NextTo(s.kinds, 0, s.names[k]).Some?)
    && (forall p :: 0 <= p < |s.kinds| && s.kinds[p].To? ==> s.kinds[p].name == [] || s.kinds[p].name in s.names)
    && (forall p :: p in s.closes ==> p < |s.kinds| && s.closes[p] <= |s.kinds| && p !in s.open)
    && (forall d :: 0 <= d < |s.open| ==> s.open[d] < |s.kinds| && s.kinds[s.open[d]] == Block)
    && (forall c, d :: 0 <= c < d < |s.open| ==> s.open[c] < s.open[d])
  }

  /** Why an item is refused, if it is. */
  function Refused(s: Seen, item: Item): Option<Error> {
    match item
    case Label(name, addressed) =>
      if addressed then Some(AddressNotAllowed)
      else if |name| > NAME then Some(LabelTooLong)
      else if name == [] || name in s.defs then Some(DuplicateLabel)
      else if name !in s.names && |s.names| + 2 >= LABELS then Some(TooManyLabels)
      else None
    case Jump(_, name, _) =>
      if |name| > NAME then Some(LabelTooLong)
      else if name != [] && name !in s.names && |s.names| + 2 >= LABELS then Some(TooManyLabels)
      else None
    case Close(addressed) =>
      if addressed then Some(AddressNotAllowed) else if s.open == [] then Some(TooManyClosed) else None
    case _ => None
  }

  /** What stops the compilation of the items, if anything does: the first one refused. */
  function Refusal(s: Seen, items: seq<Item>): Option<Error> {
    if items == [] then None
    else
      var before := Refusal(s, items[..|items| - 1]);
      if before.Some? then before else Refused(RecordAll(s, items[..|items| - 1]), items[|items| - 1])
  }

  lemma {:induction false} RefusalFirst(s: Seen, items: seq<Item>, k: nat)
    requires k <= |items| && Refusal(s, items[..k]).Some?
    ensures Refusal(s, items) == Refusal(s, items[..k])
  {
    if k == |items| {
      assert items[..k] == items;
    } else {
      assert items[..|items| - 1][..k] == items[..k];
      RefusalFirst(s, items[..|items| - 1], k);
    }
  }

  lemma NextToSnoc(kinds: seq<Kind>, p: nat, name: Name, x: Kind)
    requires p <= |kinds|
    ensures NextTo(kinds + [x], p, name)
            == var r := NextTo(kinds, p, name); if r.Some? then r else if x == To(name) then Some(|kinds|) else None
    decreases |kinds| - p
  {
    if p < |kinds| {
      NextToSnoc(kinds, p + 1, name, x);
    }
  }

  lemma RecordSound(s: Seen, item: Item)
    requires Sound(s) && Refused(s, item).None?
    ensures Sound(Record(s, item))
  {
    hide NextTo;
    NamesMentioned(s, item);
  }

  lemma NamesMentioned(s: Seen, item: Item)
    requires Sound(s)
    ensures var s' := Record(s, item);
            forall k :: 0 <= k < |s'.names| ==> s'.names[k] in s'.defs || NextTo(s'.kinds, 0, s'.names[k]).Some?
  {
    var s' := Record(s, item);
    forall k | 0 <= k < |s'.names|
      ensures s'.names[k] in s'.defs || NextTo(s'.kinds, 0, s'.names[k]).Some?
    {
      if |s'.kinds| > |s.kinds| {
        NextToSnoc(s.kinds, 0, s'.names[k], s'.kinds[|s.kinds|]);
      }
    }
  }

  // ----- the list of nodes -----

  /** `sed_reptr_t` */
  class Node {
    var next: Node?
    var lb1: Node?
    var command: Code
    var negfl: bool

    constructor ()
      ensures next == null && lb1 == null && command == NONE && !negfl
    {
      next, lb1, command, negfl := null, null, NONE, false;
    }
  }

  /** The command codes that matter here. */
  datatype Code = NONE | BCOM | TCOM | CDCOM | OTHER

  /** What a node is to do, and whether on the lines its address does not select. */
  datatype Mark = Mark(command: Code, negfl: bool)

  /** The node an item makes, if it makes one: that of a block branches around it, so its negation is turned round. */
  function MarkOf(item: Item): seq<Mark> {
    match item
    case Jump(test, _, neg) => [Mark(if test then TCOM else BCOM, neg)]
    case Open(neg) => [Mark(BCOM, !neg)]
    case Restart(neg) => [Mark(CDCOM, neg)]
    case Plain(neg) => [Mark(OTHER, neg)]
    case _ => []
  }

  function MarksOf(items: seq<Item>): seq<Mark> {
    if items == [] then [] else MarksOf(items[..|items| - 1]) + MarkOf(items[|items| - 1])
  }

  datatype Error = AddressNotAllowed | TooManyClosed | LabelTooLong | DuplicateLabel | TooManyLabels

  /** The node at a slot; no slot is a null link. */
  ghost function Ref(nodes: seq<Node>, t: Option<nat>): Node?
    requires t.Some? ==> t.value < |nodes|
  {
    if t.None? then null else nodes[t.value]
  }

  ghost function LinksOf(nodes: seq<Node>): (links: seq<Node?>)
    reads set n | n in nodes
    ensures |links| == |nodes| && forall p :: 0 <= p < |nodes| ==> links[p] == nodes[p].lb1
  {
    if nodes == [] then [] else LinksOf(nodes[..|nodes| - 1]) + [nodes[|nodes| - 1].lb1]
  }

  /** Every link leads where it should. */
  ghost predicate Linked(nodes: seq<Node>, links: seq<Node?>, s: Seen) {
    && |s.kinds| <= |nodes| == |links|
    && forall p :: 0 <= p < |s.kinds| ==>
         (Target(s, p).Some? ==> Target(s, p).value < |nodes|) && links[p] == Ref(nodes, Target(s, p))
  }

  /** The k-th label, counting from 0: defined, or with a chain of the branches waiting for it. */
  ghost predicate Entry(nodes: seq<Node>, asc: seq<Name>, chain: seq<Node?>, address: seq<Node?>, s: Seen, k: nat)
    requires k < |s.names| && |asc| == |chain| == |address| > |s.names|
  {
    var name := s.names[k];
    && asc[k + 1] == name
    && if name in s.defs then s.defs[name] < |nodes| && address[k + 1] == nodes[s.defs[name]] && chain[k + 1] == null
       else First(nodes, chain[k + 1], s.kinds, name) && address[k + 1] == null
  }

  /** A chain starts at the first branch to name. */
  ghost predicate First(nodes: seq<Node>, head: Node?, kinds: seq<Kind>, name: Name) {
    var first := NextTo(kinds, 0, name);
    (first.Some? ==> first.value < |nodes|) && head == Ref(nodes, first)
  }

  lemma FirstInChain(nodes: seq<Node>, head: Node?, kinds: seq<Kind>, name: Name)
    requires First(nodes, head, kinds, name) && head != null
    ensures var first := NextTo(kinds, 0, name);
            first.Some? && first.value < |nodes| && head == nodes[first.value]
  {
  }

  /** `labtab`: entry 0 collects the branches without a label, and its address is the current node. */
  ghost predicate Table(nodes: seq<Node>, asc: seq<Name>, chain: seq<Node?>, address: seq<Node?>, s: Seen) {
    && |asc| == |chain| == |address| == LABELS && |s.names| + 1 < LABELS && nodes != []
    && (forall k :: 0 <= k < |s.names| ==> Entry(nodes, asc, chain, address, s, k))
    && asc[0] == [] && address[0] == nodes[|nodes| - 1] && First(nodes, chain[0], s.kinds, [])
  }

  // ----- what patching does to the links -----

  /** All branches to name lead to the node to. */
  ghost function Redirected(links: seq<Node?>, kinds: seq<Kind>, name: Name, to: Node): (r: seq<Node?>)
    requires |kinds| <= |links|
    ensures |r| == |links| && forall p :: 0 <= p < |r| ==>
              r[p] == if p < |kinds| && kinds[p] == To(name) then to else links[p]
  {
    seq(|links|, p requires 0 <= p < |links| => if p < |kinds| && kinds[p] == To(name) then to else links[p])
  }

  /** The last branch to name leads to the node to. */
  ghost function Extended(links: seq<Node?>, kinds: seq<Kind>, name: Name, to: Node): (r: seq<Node?>)
    requires |kinds| <= |links|
    ensures |r| == |links|
    ensures forall p :: 0 <= p < |r| ==>
              r[p] == if p < |kinds| && kinds[p] == To(name) && NextTo(kinds, p + 1, name).None? then to else links[p]
  {
    seq(|links|, p requires 0 <= p < |links| =>
      if p < |kinds| && kinds[p] == To(name) && NextTo(kinds, p + 1, name).None? then to else links[p])
  }

  lemma NothingRedirected(links: seq<Node?>, kinds: seq<Kind>, name: Name, to: Node)
    requires |kinds| <= |links| && NextTo(kinds, 0, name).None?
    ensures Redirected(links, kinds, name, to) == links
  {
  }

  lemma AreRedirected(links: seq<Node?>, links': seq<Node?>, kinds: seq<Kind>, name: Name, to: Node)
    requires |kinds| <= |links| == |links'|
    requires forall p :: 0 <= p < |links| ==>
               links'[p] == if p < |kinds| && kinds[p] == To(name) then to else links[p]
    ensures links' == Redirected(links, kinds, name, to)
  {
  }

  lemma AreExtended(links: seq<Node?>, links': seq<Node?>, kinds: seq<Kind>, name: Name, to: Node, last: nat)
    requires last < |kinds| <= |links| && links' == links[last := to]
    requires kinds[last] == To(name) && NextTo(kinds, last + 1, name).None?
    requires forall q :: 0 <= q < |kinds| && kinds[q] == To(name) && q != last ==> NextTo(kinds, q + 1, name).Some?
    ensures links' == Extended(links, kinds, name, to)
  {
    hide NextTo;
  }

  lemma LabelLinks(nodes: seq<Node>, links: seq<Node?>, s: Seen, name: Name)
    requires Linked(nodes, links, s) && name !in s.defs && |nodes| == |s.kinds| + 1
    ensures Linked(nodes, Redirected(links, s.kinds, name, nodes[|s.kinds|]), Record(s, Label(name, false)))
  {
    var s' := Record(s, Label(name, false));
    forall p | 0 <= p < |s.kinds|
      ensures Target(s', p) == if s.kinds[p] == To(name) then Some(|s.kinds|) else Target(s, p)
    {
    }
  }

  lemma LabelTable(nodes: seq<Node>, asc: seq<Name>, chain: seq<Node?>, address: seq<Node?>, s: Seen, name: Name,
                   k: nat)
    requires Sound(s) && Table(nodes, asc, chain, address, s) && name !in s.defs && name != []
    requires |nodes| == |s.kinds| + 1
    requires 0 < k <= |s.names| + 1 < LABELS - (if name in s.names then 0 else 1) && asc[k] == name
    requires if name in s.names then k <= |s.names| else k == |s.names| + 1
    ensures Table(nodes, asc, chain[k := null], address[k := nodes[|s.kinds|]], Record(s, Label(name, false)))
  {
    var s', chain', address' := Record(s, Label(name, false)), chain[k := null], address[k := nodes[|s.kinds|]];
    if k <= |s.names| {
      assert Entry(nodes, asc, chain, address, s, k - 1);
    }
    forall j | 0 <= j < |s'.names|
      ensures Entry(nodes, asc, chain', address', s', j)
    {
      if j < |s.names| {
        assert Entry(nodes, asc, chain, address, s, j);
      }
    }
  }

  /** A branch to a label that has been defined. */
  lemma BackwardLinks(nodes: seq<Node>, links: seq<Node?>, s: Seen, name: Name)
    requires Linked(nodes, links, s) && |nodes| == |s.kinds| + 1 && name in s.defs && s.defs[name] <= |s.kinds|
    ensures Linked(nodes, links[|s.kinds| := nodes[s.defs[name]]], Record(s, Jump(false, name, false)))
  {
    SameTargets(s, To(name));
  }

  /** A branch to a label that has not: it is appended to the chain. */
  lemma ForwardLinks(nodes: seq<Node>, links: seq<Node?>, s: Seen, name: Name)
    requires Linked(nodes, links, s) && |nodes| == |s.kinds| + 1 && links[|s.kinds|] == null && name !in s.defs
    ensures Linked(nodes, Extended(links, s.kinds, name, nodes[|s.kinds|]), Record(s, Jump(false, name, false)))
  {
    hide Target, NextTo;
    ForwardTargets(s, name);
  }

  /** The last branch waiting for the label leads to the new one, which leads nowhere yet. */
  lemma ForwardTargets(s: Seen, name: Name)
    requires name !in s.defs
    ensures var s' := Record(s, Jump(false, name, false));
            && s'.kinds == s.kinds + [To(name)] && Target(s', |s.kinds|) == None
            && forall p :: 0 <= p < |s.kinds| ==>
                 Target(s', p)
                 == if s.kinds[p] == To(name) && NextTo(s.kinds, p + 1, name).None? then Some(|s.kinds|)
                    else Target(s, p)
  {
    hide NextTo;
    var s' := Record(s, Jump(false, name, false));
    SameTargets(s, To(name));
    NothingBehind(s'.kinds, name);
    forall p | 0 <= p < |s.kinds| && s.kinds[p] == To(name)
      ensures Target(s', p) == if NextTo(s.kinds, p + 1, name).None? then Some(|s.kinds|) else Target(s, p)
    {
      NextToSnoc(s.kinds, p + 1, name, To(name));
    }
    assert forall p :: 0 <= p < |s.kinds| && s.kinds[p] != To(name) ==> Target(s', p) == Target(s, p);
  }

  lemma NothingBehind(kinds: seq<Kind>, name: Name)
    ensures NextTo(kinds, |kinds|, name).None?
  {
  }

  /** One more command leaves the targets of the others as they are, but for branches waiting for the same label. */
  lemma SameTargets(s: Seen, x: Kind)
    ensures var kinds := s.kinds + [x];
            forall p :: 0 <= p < |s.kinds| && (s.kinds[p] != x || !x.To? || x.name in s.defs) ==>
              Target(s.(kinds := kinds), p) == Target(s, p)
  {
    forall p | 0 <= p < |s.kinds| && s.kinds[p].To? && s.kinds[p] != x
      ensures NextTo(s.kinds + [x], p + 1, s.kinds[p].name) == NextTo(s.kinds, p + 1, s.kinds[p].name)
    {
      NextToSnoc(s.kinds, p + 1, s.kinds[p].name, x);
    }
  }

  /** A command of any other kind. */
  lemma OtherLinks(nodes: seq<Node>, links: seq<Node?>, s: Seen, x: Kind)
    requires Linked(nodes, links, s) && Sound(s) && |nodes| == |s.kinds| + 1 && !x.To?
    requires links[|s.kinds|] == if x == ToStart then nodes[0] else null
    ensures Linked(nodes, links, s.(kinds := s.kinds + [x]))
  {
    SameTargets(s, x);
  }

  lemma LastLink(nodes: seq<Node>, links: seq<Node?>, s: Seen, to: Node?)
    requires Linked(nodes, links, s) && |nodes| == |s.kinds| + 1
    ensures Linked(nodes, links[|s.kinds| := to], s)
  {
  }

  lemma OpenLinks(nodes: seq<Node>, links: seq<Node?>, s: Seen, neg: bool)
    requires Linked(nodes, links, s) && Sound(s) && |nodes| == |s.kinds| + 1 && links[|s.kinds|] == null
    ensures Linked(nodes, links, Record(s, Open(neg)))
  {
    OtherLinks(nodes, links, s, Block);
  }

  /** The table when a command that is not a branch has been read. */
  lemma OtherTable(nodes: seq<Node>, asc: seq<Name>, chain: seq<Node?>, address: seq<Node?>, s: Seen, s': Seen, x: Kind)
    requires Table(nodes, asc, chain, address, s) && !x.To?
    requires s'.names == s.names && s'.defs == s.defs && s'.kinds == s.kinds + [x]
    ensures Table(nodes, asc, chain, address, s')
  {
    NextToSnoc(s.kinds, 0, [], x);
    forall k | 0 <= k < |s.names|
      ensures Entry(nodes, asc, chain, address, s', k)
    {
      assert Entry(nodes, asc, chain, address, s, k);
      NextToSnoc(s.kinds, 0, s.names[k], x);
    }
  }

  /** A closing brace sends the last open block to the current node, and touches nothing else. */
  lemma CloseLinks(nodes: seq<Node>, links: seq<Node?>, s: Seen)
    requires Linked(nodes, links, s) && Sound(s) && |nodes| == |s.kinds| + 1 && s.open != []
    ensures Linked(nodes, links[s.open[|s.open| - 1] := nodes[|s.kinds|]], Record(s, Close(false)))
  {
    var s', o := Record(s, Close(false)), s.open[|s.open| - 1];
    assert forall p :: 0 <= p < |s.kinds| && p != o ==> Target(s', p) == Target(s, p);
  }

  lemma CloseTable(nodes: seq<Node>, asc: seq<Name>, chain: seq<Node?>, address: seq<Node?>, s: Seen)
    requires Table(nodes, asc, chain, address, s)
    ensures Table(nodes, asc, chain, address, Record(s, Close(false)))
  {
    forall k | 0 <= k < |s.names|
      ensures Entry(nodes, asc, chain, address, Record(s, Close(false)), k)
    {
      assert Entry(nodes, asc, chain, address, s, k);
    }
  }

  /** The table when a branch has been read whose label is known: only an empty chain gets a first element. */
  lemma KnownTable(nodes: seq<Node>, asc: seq<Name>, chain: seq<Node?>, address: seq<Node?>, s: Seen, name: Name,
                   k: nat)
    requires Sound(s) && Table(nodes, asc, chain, address, s) && |nodes| == |s.kinds| + 1
    requires k <= |s.names| && asc[k] == name
    requires name == [] ==> k == 0 && name !in s.defs
    requires k > 0 ==> name == s.names[k - 1]
    ensures var chain' := if name == [] && chain[0] == null then chain[0 := nodes[|s.kinds|]] else chain;
            Table(nodes, asc, chain', address, Record(s, Jump(false, name, false)))
  {
    var s', chain' := Record(s, Jump(false, name, false)),
                             if name == [] && chain[0] == null then chain[0 := nodes[|s.kinds|]] else chain;
    NextToSnoc(s.kinds, 0, [], To(name));
    forall j | 0 <= j < |s'.names|
      ensures Entry(nodes, asc, chain', address, s', j)
    {
      assert Entry(nodes, asc, chain, address, s, j);
      NextToSnoc(s.kinds, 0, s.names[j], To(name));
    }
  }

  /** The table when a branch has been read whose label is new. */
  lemma NewTable(nodes: seq<Node>, asc: seq<Name>, chain: seq<Node?>, address: seq<Node?>, s: Seen, name: Name)
    requires Sound(s) && Table(nodes, asc, chain, address, s) && |nodes| == |s.kinds| + 1
    requires name != [] && name !in s.names && |s.names| + 2 < LABELS && asc[|s.names| + 1] == name
    ensures var k := |s.names| + 1;
            Table(nodes, asc, chain[k := nodes[|s.kinds|]], address[k := null], Record(s, Jump(false, name, false)))
  {
    var s', n := Record(s, Jump(false, name, false)), |s.names| + 1;
    var chain', address' := chain[n := nodes[|s.kinds|]], address[n := null];
    NextToSnoc(s.kinds, 0, [], To(name));
    NextToSnoc(s.kinds, 0, name, To(name));
    NoBranchYet(s, name);
    forall j | 0 <= j < |s'.names|
      ensures Entry(nodes, asc, chain', address', s', j)
    {
      if j < |s.names| {
        assert Entry(nodes, asc, chain, address, s, j);
        NextToSnoc(s.kinds, 0, s.names[j], To(name));
      }
    }
  }

  lemma NoBranchYet(s: Seen, name: Name)
    requires Sound(s) && name != [] && name !in s.names
    ensures NextTo(s.kinds, 0, name).None? && name !in s.defs
  {
    assert forall p :: 0 <= p < |s.kinds| ==> s.kinds[p] != To(name);
  }

  /** The list grown by a node: nothing changes for what has been read. */
  lemma GrownLinks(nodes: seq<Node>, links: seq<Node?>, s: Seen, v: Node)
    requires Linked(nodes, links, s)
    ensures Linked(nodes + [v], links + [null], s)
  {
  }

  lemma GrownTable(nodes: seq<Node>, asc: seq<Name>, chain: seq<Node?>, address: seq<Node?>, s: Seen, v: Node)
    requires Table(nodes, asc, chain, address, s)
    ensures Table(nodes + [v], asc, chain, address[0 := v], s)
  {
    var nodes', address' := nodes + [v], address[0 := v];
    forall j | 0 <= j < |s.names|
      ensures Entry(nodes', asc, chain, address', s, j)
    {
      assert Entry(nodes, asc, chain, address, s, j);
    }
  }

  /** The entry behind the last label is free for the name being read. */
  lemma FreeEntry(nodes: seq<Node>, asc: seq<Name>, chain: seq<Node?>, address: seq<Node?>, s: Seen, name: Name)
    requires Table(nodes, asc, chain, address, s)
    ensures Table(nodes, asc[|s.names| + 1 := name], chain, address, s)
  {
    var asc' := asc[|s.names| + 1 := name];
    forall j | 0 <= j < |s.names|
      ensures Entry(nodes, asc', chain, address, s, j)
    {
      assert Entry(nodes, asc, chain, address, s, j);
    }
  }

  /** The entry of a label that has been mentioned but not defined. */
  lemma PendingEntry(nodes: seq<Node>, asc: seq<Name>, chain: seq<Node?>, address: seq<Node?>, s: Seen, name: Name,
                     k: nat)
    requires Sound(s) && Table(nodes, asc, chain, address, s) && 0 < k <= |s.names| && s.names[k - 1] == name
    requires name !in s.defs
    ensures First(nodes, chain[k], s.kinds, name) && chain[k] != null
    ensures name != [] && Mention(s.names, name) == s.names && name in s.names
    ensures |asc| == |chain| == |address| == LABELS && |s.names| + 1 < LABELS
  {
    assert Entry(nodes, asc, chain, address, s, k - 1);
  }

  lemma DefinedEntry(nodes: seq<Node>, asc: seq<Name>, chain: seq<Node?>, address: seq<Node?>, s: Seen, name: Name,
                     k: nat)
    requires Sound(s) && Table(nodes, asc, chain, address, s) && 0 < k <= |s.names| && s.names[k - 1] == name
    requires name in s.defs
    ensures |asc| == |chain| == |address| == LABELS && |s.names| + 1 < LABELS && Mention(s.names, name) == s.names
    ensures name != []
    ensures s.defs[name] < |nodes| && s.defs[name] <= |s.kinds| && address[k] == nodes[s.defs[name]]
  {
    assert Entry(nodes, asc, chain, address, s, k - 1);
  }

  /** The chain of a label not yet defined, or of the branches without a label. */
  lemma ChainHead(nodes: seq<Node>, asc: seq<Name>, chain: seq<Node?>, address: seq<Node?>, s: Seen, name: Name, k: nat)
    requires Sound(s) && Table(nodes, asc, chain, address, s) && k <= |s.names| && name !in s.defs
    requires if k == 0 then name == [] else s.names[k - 1] == name
    ensures First(nodes, chain[k], s.kinds, name) && asc[k] == name
    ensures (chain[k] == null <==> NextTo(s.kinds, 0, name).None?)
    ensures Mention(s.names, name) == s.names && |s.names| + 1 < LABELS == |chain|
  {
    assert k > 0 ==> Entry(nodes, asc, chain, address, s, k - 1);
  }

  lemma Unlabelled(s: Seen)
    requires Sound(s)
    ensures [] !in s.defs && Refused(s, Jump(false, [], false)).None?
  {
    assert [] in s.defs ==> [] in s.names;
  }

  lemma JumpRecord(s: Seen, test: bool, name: Name, neg: bool)
    ensures var s', jump := Record(s, Jump(false, name, false)), Jump(test, name, neg);
            && s'.kinds == s.kinds + [To(name)] && s'.open == s.open && s'.names == Mention(s.names, name)
            && s' == Record(s, jump) && Refused(s, Jump(false, name, false)) == Refused(s, jump)
  {
  }

  lemma NothingExtended(links: seq<Node?>, kinds: seq<Kind>, name: Name, to: Node)
    requires |kinds| <= |links| && NextTo(kinds, 0, name).None?
    ensures Extended(links, kinds, name, to) == links
  {
  }

  lemma LabelRecord(s: Seen, name: Name, addressed: bool)
    ensures var s' := Record(s, Label(name, addressed));
            && s'.kinds == s.kinds && s'.open == s.open
            && s' == Record(s, Label(name, false)) && s'.names == Mention(s.names, name)
  {
  }

  lemma EmptyState(nodes: seq<Node>, links: seq<Node?>, asc: seq<Name>, chain: seq<Node?>, address: seq<Node?>)
    requires |nodes| == |links| == 1 && |asc| == |chain| == |address| == LABELS
    requires asc[0] == [] && chain[0] == null && address[0] == nodes[0]
    ensures Sound(NOTHING_SEEN) && Linked(nodes, links, NOTHING_SEEN) && Table(nodes, asc, chain, address, NOTHING_SEEN)
  {
  }

  lemma RecordGrows(s: Seen, item: Item)
    ensures |Record(s, item).kinds| == |s.kinds| + |MarkOf(item)| && (item.Label? || item.Close? ==> MarkOf(item) == [])
  {
  }

  lemma NotRefused(s: Seen, item: Item)
    ensures item.Open? || item.Restart? || item.Plain? ==> Refused(s, item).None?
  {
  }

  // ----- the compiler's state -----

  /** `sed_commands_t`, the part that links commands; labtab is kept as one array for each of its fields. */
  class Commands {
    var ptrspace: Node
    var rep: Node
    const asc: array<Name>
    const chain: array<Node?>
    const address: array<Node?>
    var lab: nat
    const cmpend: array<Node?>
    var depth: nat

    ghost var nodes: seq<Node>
    ghost var seen: Seen
    ghost var marks: seq<Mark>

    ghost function Nodes(): set<Node>
      reads this
    {
      set n | n in nodes
    }

    ghost predicate Distinct()
      reads this
    {
      forall j, k :: 0 <= j < k < |nodes| ==> nodes[j] != nodes[k]
    }

    /** The nodes are distinct and linked in order; the last one is still to be filled. */
    ghost predicate Listed()
      reads this, Nodes()
    {
      && |nodes| > 0 && nodes[0] == ptrspace && nodes[|nodes| - 1] == rep && Distinct()
      && (forall k :: 0 <= k < |nodes| - 1 ==> nodes[k].next == nodes[k + 1])
      && rep.next == null
    }

    ghost predicate Braces(s: Seen)
      reads this, cmpend
    {
      && cmpend.Length == DEPTH && depth == |s.open| <= DEPTH
      && forall d :: 0 <= d < depth ==> s.open[d] < |nodes| && cmpend[d] == nodes[s.open[d]]
    }

    ghost predicate Tables(s: Seen)
      reads this, asc, chain, address
    {
      Table(nodes, asc[..], chain[..], address[..], s) && lab == |s.names| + 1 && chain != address
    }

    /** The nodes filled so far do what the items they come from say. */
    ghost predicate Marked()
      reads this, Nodes()
    {
      && |marks| == |seen.kinds| <= |nodes|
      && forall p :: 0 <= p < |marks| ==> Mark(nodes[p].command, nodes[p].negfl) == marks[p]
    }

    /** Between items: what has been read is linked, the current node is still empty. */
    ghost predicate Valid()
      reads this, Nodes(), asc, chain, address, cmpend
    {
      && Sound(seen) && |nodes| == |seen.kinds| + 1 && Listed() && rep.lb1 == null
      && Linked(nodes, LinksOf(nodes), seen) && Tables(seen) && Braces(seen)
    }

    /** The current node has become the command that s records last. */
    ghost predicate Filled(s: Seen)
      reads this, Nodes(), asc, chain, address, cmpend
    {
      && Sound(s) && |nodes| == |s.kinds| && Listed()
      && Linked(nodes, LinksOf(nodes), s) && Tables(s) && Braces(s)
    }

    /** `sed_init_commands` */
    constructor ()
      ensures Valid() && seen == NOTHING_SEEN && Marked() && marks == []
      ensures fresh(Nodes()) && fresh(asc) && fresh(chain) && fresh(address) && fresh(cmpend)
    {
      var first := new Node();
      asc, chain, address := new Name[LABELS](_ => []), new Node?[LABELS](_ => null), new Node?[LABELS](_ => null);
      cmpend := new Node?[DEPTH](_ => null);
      ptrspace, rep, lab, depth := first, first, 1, 0;
      nodes, seen, marks := [first], NOTHING_SEEN, [];
      new;
      hide Valid, Marked;
      address[0] := first;
      StartsValid();
    }

    lemma StartsValid()
      requires nodes == [rep] && ptrspace == rep && rep.next == null && rep.lb1 == null && seen == NOTHING_SEEN
      requires asc.Length == chain.Length == address.Length == LABELS && cmpend.Length == DEPTH && chain != address
      requires asc[0] == [] && chain[0] == null && address[0] == rep && lab == 1 && depth == 0 && marks == []
      ensures Valid() && Marked()
    {
      hide NextTo, Target, Linked, Sound, Table, Entry, First;
      EmptyState(nodes, LinksOf(nodes), asc[..], chain[..], address[..]);
    }

    /** A new last node. */
    method AppendNode()
      requires Listed()
      modifies this`rep, this`nodes, rep`next
      ensures Listed() && rep.lb1 == null && fresh(rep) && nodes == old(nodes) + [rep]
      ensures LinksOf(nodes) == old(LinksOf(nodes)) + [null]
    {
      var v := new Node();
      rep.next := v;
      rep := v;
      nodes := nodes + [v];
      assert forall k :: 0 <= k < |nodes| - 1 ==> nodes[k].next == nodes[k + 1];
    }

    /** `alloc_reptr` */
    method AllocReptr(ghost s: Seen)
      requires Filled(s)
      modifies this`rep, this`nodes, this`seen, rep`next, address
      ensures Valid() && seen == s && nodes == old(nodes) + [rep] && fresh(rep)
    {
      hide NextTo, Target, Linked, Sound, LinksOf, Table, Entry, First;
      TableSizes(s);
      AppendNode();
      GrownLinks(old(nodes), old(LinksOf(nodes)), s, rep);
      GrownTable(old(nodes), asc[..], chain[..], address[..], s, rep);
      address[0] := rep;
      seen := s;
      assert address[..] == old(address[..])[0 := rep];
    }

    /** `search`: the table entry whose name is the one in asc[lab]. */
    method Search() returns (rp: nat)
      requires lab < asc.Length
      ensures rp <= lab && (rp < lab ==> asc[rp] == asc[lab]) && forall j :: 0 <= j < rp ==> asc[j] != asc[lab]
    {
      rp := 0;
      while rp < lab
        invariant rp <= lab && forall j :: 0 <= j < rp ==> asc[j] != asc[lab]
      {
        if asc[rp] == asc[lab] {
          return;
        }
        rp := rp + 1;
      }
    }

    /** The branches to name form a chain, each linked to the next. */
    ghost predicate Waiting(kinds: seq<Kind>, name: Name)
      reads this, Nodes()
    {
      && |kinds| < |nodes|
      && forall p :: 0 <= p < |kinds| && kinds[p] == To(name) ==> nodes[p].lb1 == Ref(nodes, NextTo(kinds, p + 1, name))
    }

    lemma LinkedWaiting(s: Seen, name: Name)
      requires Linked(nodes, LinksOf(nodes), s) && |s.kinds| < |nodes| && name !in s.defs
      ensures Waiting(s.kinds, name)
    {
    }

    /** The branches to name. */
    ghost function Branches(kinds: seq<Kind>, name: Name): set<Node>
      requires |kinds| <= |nodes|
      reads this
    {
      set p | 0 <= p < |kinds| && kinds[p] == To(name) :: nodes[p]
    }

    lemma BranchesAre(kinds: seq<Kind>, name: Name)
      requires Distinct() && |kinds| <= |nodes|
      ensures forall p :: 0 <= p < |nodes| ==>
                (nodes[p] in Branches(kinds, name) <==> p < |kinds| && kinds[p] == To(name))
      ensures forall n :: n in Branches(kinds, name) ==> n in nodes
    {
      forall p | 0 <= p < |nodes| && nodes[p] in Branches(kinds, name)
        ensures p < |kinds| && kinds[p] == To(name)
      {
        var q :| 0 <= q < |kinds| && kinds[q] == To(name) && nodes[q] == nodes[p];
        assert p == q;
      }
    }

    /** The loop of `dechain`: the branches from slot p0 on are sent to the current node. */
    method Redirect(first: Node, ghost p0: nat, ghost kinds: seq<Kind>, ghost name: Name)
      requires Distinct() && Waiting(kinds, name) && NextTo(kinds, 0, name) == Some(p0) && first == nodes[p0]
      modifies Branches(kinds, name)`lb1
      ensures forall p :: 0 <= p < |kinds| && kinds[p] == To(name) ==> nodes[p].lb1 == rep
    {
      hide NextTo;
      var r := first;
      ghost var p := p0;
      while r.lb1 != null
        invariant p < |kinds| && kinds[p] == To(name) && r == nodes[p]
        invariant forall q :: 0 <= q < p && kinds[q] == To(name) ==> nodes[q].lb1 == rep
        invariant forall q :: p <= q < |kinds| && kinds[q] == To(name) ==>
                    nodes[q].lb1 == Ref(nodes, NextTo(kinds, q + 1, name))
        decreases |kinds| - p
      {
        ghost var p' := NextTo(kinds, p + 1, name);
        assert r.lb1 == Ref(nodes, p');
        assert forall q :: p < q < p'.value ==> kinds[q] != To(name);
        assert forall q :: 0 <= q < |nodes| && q != p ==> nodes[q] != r;
        var next: Node := r.lb1;
        r.lb1 := rep;
        r := next;
        p := p'.value;
      }
      assert NextTo(kinds, p + 1, name).None?;
      assert forall q :: p < q < |kinds| ==> kinds[q] != To(name);
      assert forall q :: 0 <= q < |nodes| && q != p ==> nodes[q] != r;
      r.lb1 := rep;
    }

    /** `dechain`: every branch waiting in the chain is sent to the current node. */
    method Dechain(lpt: nat, ghost kinds: seq<Kind>, ghost name: Name)
      requires Distinct() && Waiting(kinds, name) && lpt < chain.Length && First(nodes, chain[lpt], kinds, name)
      modifies Branches(kinds, name)`lb1, chain
      ensures chain[..] == old(chain[..])[lpt := null]
      ensures LinksOf(nodes) == Redirected(old(LinksOf(nodes)), kinds, name, rep)
    {
      hide NextTo, Redirected, LinksOf;
      BranchesAre(kinds, name);
      ghost var links := LinksOf(nodes);
      if chain[lpt] == null {
        assert NextTo(kinds, 0, name).None?;
        NothingRedirected(links, kinds, name, rep);
        return;
      }
      Redirect(chain[lpt], NextTo(kinds, 0, name).value, kinds, name);
      AreRedirected(links, LinksOf(nodes), kinds, name, rep);
      chain[lpt] := null;
    }

    /** The loop of `fcomp` that goes to the end of a chain. */
    method LastInChain(first: Node, ghost p0: nat, ghost kinds: seq<Kind>, ghost name: Name)
      returns (pt: Node, ghost p: nat)
      requires Distinct() && Waiting(kinds, name) && NextTo(kinds, 0, name) == Some(p0) && first == nodes[p0]
      ensures p < |kinds| && kinds[p] == To(name) && pt == nodes[p] && NextTo(kinds, p + 1, name).None?
      ensures forall q :: 0 <= q < |kinds| && kinds[q] == To(name) && q != p ==> NextTo(kinds, q + 1, name).Some?
    {
      hide NextTo;
      pt, p := first, p0;
      while pt.lb1 != null
        invariant p < |kinds| && kinds[p] == To(name) && pt == nodes[p]
        invariant forall q :: 0 <= q < p && kinds[q] == To(name) ==> NextTo(kinds, q + 1, name).Some?
        decreases |kinds| - p
      {
        ghost var p' := NextTo(kinds, p + 1, name);
        assert pt.lb1 == Ref(nodes, p');
        pt := pt.lb1;
        p := p'.value;
      }
      assert NextTo(kinds, p + 1, name).None?;
    }

    /** The current node is appended to the chain of a label. */
    method AppendToChain(lpt: nat, ghost kinds: seq<Kind>, ghost name: Name)
      requires Distinct() && Waiting(kinds, name) && lpt < chain.Length && First(nodes, chain[lpt], kinds, name)
      requires chain[lpt] != null
      modifies Branches(kinds, name)`lb1
      ensures LinksOf(nodes) == Extended(old(LinksOf(nodes)), kinds, name, rep)
    {
      hide NextTo, Extended, LinksOf, First;
      ghost var links := LinksOf(nodes);
      FirstInChain(nodes, chain[lpt], kinds, name);
      var pt, p := LastInChain(chain[lpt], NextTo(kinds, 0, name).value, kinds, name);
      pt.lb1 := rep;
      assert forall q :: 0 <= q < |nodes| && q != p ==> nodes[q] != pt;
      AreExtended(links, LinksOf(nodes), kinds, name, rep, p);
    }

    /** What `search` finds. */
    lemma FoundName(s: Seen, lpt: nat, name: Name)
      requires Sound(s) && Tables(s) && asc[lab] == name
      requires lpt <= lab && (lpt < lab ==> asc[lpt] == asc[lab]) && forall j :: 0 <= j < lpt ==> asc[j] != asc[lab]
      ensures lpt == 0 <==> name == []
      ensures 0 < lpt < lab ==>
                && s.names[lpt - 1] == name == asc[lpt] && name in s.names
                && (address[lpt] != null <==> name in s.defs)
      ensures lpt == 0 ==> address[0] != null
      ensures lpt == lab ==> name !in s.names
    {
      if lpt == lab {
        assert asc[0] != asc[lab];
        forall k | 0 <= k < |s.names|
          ensures s.names[k] != name
        {
          assert Entry(nodes, asc[..], chain[..], address[..], s, k) && asc[k + 1] != asc[lab];
        }
      } else if lpt > 0 {
        assert Entry(nodes, asc[..], chain[..], address[..], s, lpt - 1);
      }
    }

    /** A name is read into the free entry and searched for. */
    method Find(name: Name) returns (lpt: nat)
      requires Valid()
      modifies asc
      ensures Valid() && asc[lab] == name && lpt <= lab
      ensures lpt == 0 <==> name == []
      ensures lab == |seen.names| + 1 < address.Length && (lpt == 0 ==> address[0] != null)
      ensures 0 < lpt < lab ==>
                && seen.names[lpt - 1] == name == asc[lpt] && name in seen.names
                && (address[lpt] != null <==> name in seen.defs)
      ensures lpt == lab ==> name !in seen.names && name !in seen.defs
    {
      hide NextTo, Target, Linked, LinksOf, First, Table, Entry, Sound;
      TableSizes(seen);
      FreeEntry(nodes, asc[..], chain[..], address[..], seen, name);
      asc[lab] := name;
      assert asc[..] == old(asc[..])[lab := name];
      lpt := Search();
      FoundName(seen, lpt, name);
      if lpt == lab {
        NoBranchYet(seen, name);
      }
    }

    /** The case of `:` in `fcomp`. */
    method DefineLabel(name: Name, addressed: bool) returns (e: Option<Error>)
      requires Valid()
      modifies this`lab, this`seen, Nodes()`lb1, asc, chain, address
      ensures e == Refused(old(seen), Label(name, addressed))
      ensures e.None? ==> Valid() && seen == Record(old(seen), Label(name, addressed))
    {
      hide Linked, Table, Entry, First, NextTo, Target, LinksOf, Sound, Mention, Record;
      ghost var s := seen;
      if addressed {
        return Some(AddressNotAllowed);
      }
      if |name| > NAME {
        return Some(LabelTooLong);
      }
      var lpt := Find(name);
      if lpt < lab {
        if address[lpt] != null {
          return Some(DuplicateLabel);
        }
        ResolveLabel(lpt, name);
      } else {
        if lab + 1 >= LABELS {
          lab := lab + 1;
          return Some(TooManyLabels);
        }
        EnterLabel(name);
      }
      RecordSound(s, Label(name, addressed));
      LabelRecord(s, name, addressed);
      seen := Record(s, Label(name, addressed));
      return None;
    }

    /** A label that branches have been waiting for. */
    method ResolveLabel(lpt: nat, name: Name)
      requires Valid() && 0 < lpt < lab && seen.names[lpt - 1] == name == asc[lpt] && name !in seen.defs
      modifies Nodes()`lb1, chain, address
      ensures Listed() && rep.lb1 == null && Braces(seen)
      ensures Linked(nodes, LinksOf(nodes), Record(seen, Label(name, false)))
      ensures Tables(Record(seen, Label(name, false)))
    {
      hide NextTo, Target, Mention, Record, Linked, Sound, LinksOf, Table, Entry, First, Waiting, Redirected, Branches;
      ghost var s := seen;
      LinkedWaiting(s, name);
      BranchesAre(s.kinds, name);
      PendingEntry(nodes, asc[..], chain[..], address[..], s, name, lpt);
      LabelRecord(s, name, false);
      LabelLinks(nodes, LinksOf(nodes), s, name);
      LabelTable(nodes, asc[..], chain[..], address[..], s, name, lpt);
      Dechain(lpt, s.kinds, name);
      address[lpt] := rep;
      assert address[..] == old(address[..])[lpt := rep];
    }

    /** A label not mentioned before. */
    method EnterLabel(name: Name)
      requires Valid() && name !in seen.names && name != [] && lab + 1 < LABELS && asc[lab] == name
      modifies this`lab, chain, address
      ensures Listed() && rep.lb1 == null && Braces(seen)
      ensures Linked(nodes, LinksOf(nodes), Record(seen, Label(name, false)))
      ensures Tables(Record(seen, Label(name, false)))
    {
      hide NextTo, Target, Linked, Sound, LinksOf, Entry, First;
      ghost var s := seen;
      NoBranchYet(s, name);
      NothingRedirected(LinksOf(nodes), s.kinds, name, rep);
      LabelLinks(nodes, LinksOf(nodes), s, name);
      LabelTable(nodes, asc[..], chain[..], address[..], s, name, lab);
      chain[lab] := null;
      address[lab] := rep;
      assert chain[..] == old(chain[..])[lab := null] && address[..] == old(address[..])[lab := rep];
      lab := lab + 1;
    }

    // ----- branches -----

    /** The current node joins the branches waiting for a label, or those without one. */
    method JoinChain(lpt: nat, name: Name)
      requires Valid() && name !in seen.defs && lpt <= |seen.names| && (lpt == 0 <==> name == [])
      requires chain.Length == LABELS && chain[lpt] != null
      requires lpt > 0 ==> seen.names[lpt - 1] == name == asc[lpt]
      requires Refused(seen, Jump(false, name, false)).None?
      modifies Nodes()`lb1
      ensures Filled(Record(seen, Jump(false, name, false)))
    {
      hide NextTo, Target, Mention, Record, Linked, Sound, LinksOf, Table, Entry, First, Waiting, Extended, Branches;
      hide Refused;
      ghost var s := seen;
      LinkedWaiting(s, name);
      BranchesAre(s.kinds, name);
      JumpRecord(s, false, name, false);
      RecordSound(s, Jump(false, name, false));
      ChainHead(nodes, asc[..], chain[..], address[..], s, name, lpt);
      RepLink();
      ForwardLinks(nodes, LinksOf(nodes), s, name);
      KnownTable(nodes, asc[..], chain[..], address[..], s, name, lpt);
      AppendToChain(lpt, s.kinds, name);
      assert Listed();
      assert Braces(Record(s, Jump(false, name, false)));
    }

    lemma RepLink()
      requires Listed() && rep.lb1 == null
      ensures LinksOf(nodes)[|nodes| - 1] == null
    {
    }

    /** The first branch without a label. */
    method StartUnlabelled()
      requires Valid() && chain.Length == LABELS && chain[0] == null
      modifies chain
      ensures Filled(Record(seen, Jump(false, [], false)))
    {
      hide NextTo, Target, Mention, Record, Linked, Sound, LinksOf, Table, Entry, First, Extended, Refused;
      ghost var s := seen;
      JumpRecord(s, false, [], false);
      Unlabelled(s);
      RecordSound(s, Jump(false, [], false));
      ChainHead(nodes, asc[..], chain[..], address[..], s, [], 0);
      RepLink();
      NothingExtended(LinksOf(nodes), s.kinds, [], rep);
      ForwardLinks(nodes, LinksOf(nodes), s, []);
      KnownTable(nodes, asc[..], chain[..], address[..], s, [], 0);
      chain[0] := rep;
      assert chain[..] == old(chain[..])[0 := rep];
    }

    /** A branch back to a label. */
    method LinkBack(lpt: nat, name: Name)
      requires Valid() && name in seen.defs && 0 < lpt <= |seen.names| && seen.names[lpt - 1] == name == asc[lpt]
      requires address.Length == LABELS && address[lpt] != null && Refused(seen, Jump(false, name, false)).None?
      requires name != []
      modifies rep`lb1
      ensures Filled(Record(seen, Jump(false, name, false)))
    {
      hide NextTo, Target, Mention, Record, Linked, Sound, LinksOf, Table, Entry, First, Refused;
      ghost var s := seen;
      JumpRecord(s, false, name, false);
      RecordSound(s, Jump(false, name, false));
      DefinedEntry(nodes, asc[..], chain[..], address[..], s, name, lpt);
      BackwardLinks(nodes, LinksOf(nodes), s, name);
      KnownTable(nodes, asc[..], chain[..], address[..], s, name, lpt);
      ghost var links := LinksOf(nodes);
      rep.lb1 := address[lpt];
      SetRepLink(links);
    }

    twostate lemma SetRepLink(links: seq<Node?>)
      requires old(Listed()) && Listed() && nodes == old(nodes) && links == old(LinksOf(nodes)) && rep == old(rep)
      requires forall p :: 0 <= p < |nodes| && nodes[p] != rep ==> nodes[p].lb1 == old(nodes[p].lb1)
      ensures LinksOf(nodes) == links[|nodes| - 1 := rep.lb1]
    {
    }

    /** A branch to a label not mentioned before. */
    method StartChain(name: Name)
      requires Valid() && name !in seen.names && name != [] && lab + 1 < LABELS && asc.Length == LABELS
      requires asc[lab] == name
      requires Refused(seen, Jump(false, name, false)).None?
      modifies this`lab, chain, address
      ensures Filled(Record(seen, Jump(false, name, false)))
    {
      hide NextTo, Target, Linked, Sound, LinksOf, Entry, First;
      ghost var s := seen;
      NoBranchYet(s, name);
      JumpRecord(s, false, name, false);
      RecordSound(s, Jump(false, name, false));
      RepLink();
      NothingExtended(LinksOf(nodes), s.kinds, name, rep);
      ForwardLinks(nodes, LinksOf(nodes), s, name);
      NewTable(nodes, asc[..], chain[..], address[..], s, name);
      chain[lab] := rep;
      address[lab] := null;
      assert chain[..] == old(chain[..])[lab := rep] && address[..] == old(address[..])[lab := null];
      lab := lab + 1;
    }

    /** The current node is told what to do. */
    method SetMark(command: Code, neg: bool)
      requires Valid()
      modifies rep`command, rep`negfl
      ensures Valid() && rep.command == command && rep.negfl == neg
    {
      hide NextTo, Target, Linked, Sound, LinksOf, Table, Entry, First;
      rep.command := command;
      rep.negfl := neg;
      assert LinksOf(nodes) == old(LinksOf(nodes));
    }

    /** The cases of `b` and `t` in `fcomp`. */
    method AddBranch(test: bool, name: Name, neg: bool) returns (e: Option<Error>)
      requires Valid()
      modifies this, Nodes()`lb1, rep`next, rep`command, rep`negfl, asc, chain, address
      ensures e == Refused(old(seen), Jump(test, name, neg))
      ensures e.None? ==>
                Valid() && seen == Record(old(seen), Jump(test, name, neg)) && nodes == old(nodes) + [rep] && fresh(rep)
      ensures e.None? ==>
                marks == old(marks) && MarkOf(Jump(test, name, neg)) == [Mark(old(rep).command, old(rep).negfl)]
    {
      hide NextTo, Target, Mention, Linked, Sound, LinksOf, Tables, Record, Refused, Braces;
      SetMark(if test then TCOM else BCOM, neg);
      JumpRecord(seen, test, name, neg);
      ghost var s' := Record(seen, Jump(false, name, false));
      e := LinkBranch(name);
      if e.None? {
        AllocReptr(s');
      }
    }

    /** The link of a branch, by what is known of its label. */
    method LinkBranch(name: Name) returns (e: Option<Error>)
      requires Valid()
      modifies this`lab, Nodes()`lb1, asc, chain, address
      ensures e == Refused(seen, Jump(false, name, false))
      ensures e.None? ==> Filled(Record(seen, Jump(false, name, false)))
    {
      hide NextTo, Target, Mention, Linked, Sound, LinksOf, Table, Entry, First, Record, Filled;
      TableSizes(seen);
      if name == [] {
        Unlabelled(seen);
        if chain[0] != null {
          JoinChain(0, name);
        } else {
          StartUnlabelled();
        }
      } else {
        if |name| > NAME {
          return Some(LabelTooLong);
        }
        var lpt := Find(name);
        if lpt < lab {
          if address[lpt] != null {
            LinkBack(lpt, name);
          } else {
            PendingEntry(nodes, asc[..], chain[..], address[..], seen, name, lpt);
            JoinChain(lpt, name);
          }
        } else {
          if lab + 1 >= LABELS {
            lab := lab + 1;
            return Some(TooManyLabels);
          }
          StartChain(name);
        }
      }
      return None;
    }

    lemma TableSizes(s: Seen)
      requires Tables(s)
      ensures asc.Length == chain.Length == address.Length == LABELS && lab == |s.names| + 1 < LABELS
    {
    }

    // ----- blocks and other commands -----

    /** The case of `{` in `fcomp`: the block's node branches around it when the address does not select the line. */
    method OpenBlock(neg: bool) returns (e: Option<Error>)
      requires Valid() && |seen.open| < DEPTH
      modifies this, rep`next, rep`command, rep`negfl, address, cmpend
      ensures e.None? && Valid() && seen == Record(old(seen), Open(neg)) && nodes == old(nodes) + [rep] && fresh(rep)
      ensures marks == old(marks) && MarkOf(Open(neg)) == [Mark(old(rep).command, old(rep).negfl)]
    {
      hide NextTo, Target, Linked, Sound, LinksOf, Table, Entry, First, Refused;
      ghost var s' := Record(seen, Open(neg));
      NotRefused(seen, Open(neg));
      OpenLinks(nodes, LinksOf(nodes), seen, neg);
      OtherTable(nodes, asc[..], chain[..], address[..], seen, s', Block);
      RecordSound(seen, Open(neg));
      RepLink();
      rep.command := BCOM;
      rep.negfl := neg;
      rep.negfl := !rep.negfl;
      cmpend[depth] := rep;
      depth := depth + 1;
      assert LinksOf(nodes) == old(LinksOf(nodes));
      AllocReptr(s');
      e := None;
    }

    /** The case of `}` in `fcomp`. */
    method CloseBlock(addressed: bool) returns (e: Option<Error>)
      requires Valid()
      modifies this`depth, this`seen, Nodes()`lb1
      ensures e == Refused(old(seen), Close(addressed))
      ensures e.None? ==> Valid() && seen == Record(old(seen), Close(addressed))
    {
      if addressed {
        return Some(AddressNotAllowed);
      }
      if depth == 0 {
        return Some(TooManyClosed);
      }
      PatchBlock();
      return None;
    }

    /** `*cmpend[--depth] = rep` */
    method PatchBlock()
      requires Valid() && depth > 0
      modifies this`depth, this`seen, Nodes()`lb1
      ensures Valid() && seen == Record(old(seen), Close(false))
    {
      hide NextTo, Target, Linked, LinksOf, Table, Entry, First;
      ghost var s, links := seen, LinksOf(nodes);
      ghost var patched := links[s.open[depth - 1] := nodes[|s.kinds|]];
      CloseLinks(nodes, links, s);
      CloseTable(nodes, asc[..], chain[..], address[..], s);
      RecordSound(s, Close(false));
      depth := depth - 1;
      var n: Node := cmpend[depth];
      n.lb1 := rep;
      ghost var o := s.open[depth];
      assert o < |s.kinds| && n == nodes[o];
      assert forall p :: 0 <= p < |nodes| && p != o ==> nodes[p] != n;
      assert rep.lb1 == null && Listed();
      seen := Record(s, Close(false));
      assert LinksOf(nodes) == patched;
    }

    /** `D` goes back to the first command; the other commands have no link. */
    method AddCommand(item: Item)
      requires Valid() && (item.Restart? || item.Plain?)
      modifies this, rep, address
      ensures Valid() && seen == Record(old(seen), item) && nodes == old(nodes) + [rep] && fresh(rep)
      ensures marks == old(marks) && MarkOf(item) == [Mark(old(rep).command, old(rep).negfl)]
    {
      hide NextTo, Target, Linked, LinksOf, Table, Entry, First, Sound;
      ghost var x := if item.Restart? then ToStart else Other;
      ghost var s', links := Record(seen, item), LinksOf(nodes);
      OtherTable(nodes, asc[..], chain[..], address[..], seen, s', x);
      RecordSound(seen, item);
      RepLink();
      LastLink(nodes, links, seen, if item.Restart? then ptrspace else null);
      rep.negfl := item.neg;
      if item.Restart? {
        rep.command := CDCOM;
        rep.lb1 := ptrspace;
      } else {
        rep.command := OTHER;
      }
      assert forall p :: 0 <= p < |nodes| - 1 ==> nodes[p] != rep;
      assert LinksOf(nodes) == links[|nodes| - 1 := if item.Restart? then ptrspace else null];
      OtherLinks(nodes, LinksOf(nodes), seen, x);
      AllocReptr(s');
    }

    // ----- the whole script -----

    /** What the nodes filled last are to do is noted. */
    ghost method Remember(more: seq<Mark>)
      requires Valid()
      modifies this`marks
      ensures Valid() && marks == old(marks) + more
    {
      hide NextTo, Target, Linked, LinksOf, Table, Entry, First, Sound;
      var links := LinksOf(nodes);
      marks := marks + more;
      assert LinksOf(nodes) == links;
    }

    lemma ListIsValid()
      requires Valid()
      ensures |nodes| == |seen.kinds| + 1 && nodes[|seen.kinds|] == rep && Distinct()
      ensures forall d :: 0 <= d < |seen.open| ==> seen.open[d] < |seen.kinds|
    {
    }

    /** One item of the script, at the current node. */
    method AddItem(item: Item) returns (e: Option<Error>)
      requires Valid() && Marked() && (item.Open? ==> |seen.open| < DEPTH)
      modifies this, Nodes(), asc, chain, address, cmpend
      ensures e == Refused(old(seen), item)
      ensures e.None? ==> Valid() && seen == Record(old(seen), item) && Marked() && marks == old(marks) + MarkOf(item)
      ensures e.None? ==> nodes == old(nodes) || (nodes == old(nodes) + [rep] && fresh(rep))
    {
      hide Valid, Record, MarkOf, Refused;
      ListIsValid();
      RecordGrows(seen, item);
      NotRefused(seen, item);
      e := None;
      match item {
        case Label(name, addressed) => e := DefineLabel(name, addressed);
        case Jump(test, name, neg) => e := AddBranch(test, name, neg);
        case Open(neg) => e := OpenBlock(neg);
        case Close(addressed) => e := CloseBlock(addressed);
        case _ => AddCommand(item);
      }
      if e.None? {
        Remember(MarkOf(item));
      }
    }

    /**
     * `fcomp` on the commands of a script, which may continue an earlier one; cmpend has room for twenty open blocks.
     */
    method Compile(items: seq<Item>) returns (e: Option<Error>)
      requires Valid() && Marked()
      requires forall k :: 0 <= k < |items| && items[k].Open? ==> |RecordAll(seen, items[..k]).open| < DEPTH
      modifies this, Nodes(), asc, chain, address, cmpend
      ensures e == Refusal(old(seen), items)
      ensures e.None? ==>
                Valid() && seen == RecordAll(old(seen), items) && Marked() && marks == old(marks) + MarksOf(items)
    {
      hide Valid, Marked, MarkOf, Refused, Record;
      var k := 0;
      while k < |items|
        invariant k <= |items| && Valid() && Marked() && marks == old(marks) + MarksOf(items[..k])
        invariant seen == RecordAll(old(seen), items[..k]) && Refusal(old(seen), items[..k]).None?
        invariant forall n :: n in nodes ==> n in old(nodes) || fresh(n)
      {
        assert items[..k + 1][..k] == items[..k];
        e := AddItem(items[k]);
        if e.Some? {
          RefusalFirst(old(seen), items, k + 1);
          return;
        }
        k := k + 1;
      }
      assert items[..k] == items;
      e := None;
    }

    /** `check_finalized` */
    method CheckFinalized() returns (ok: bool)
      requires Valid()
      ensures ok <==> Finalized(seen)
    {
      if depth != 0 {
        return false;
      }
      var l := 1;
      while l < lab
        invariant 1 <= l <= lab && forall k :: 0 <= k < l - 1 ==> seen.names[k] in seen.defs
      {
        assert Entry(nodes, asc[..], chain[..], address[..], seen, l - 1);
        if address[l] == null || chain[l] != null {
          assert seen.names[l - 1] !in seen.defs;
          return false;
        }
        l := l + 1;
      }
      return true;
    }
  }
}
