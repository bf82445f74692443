/** The list of key handles in use: doubly linked, with a reference count for each handle. */
module ActiveLists {

  /** An object handle of the provider; CK_INVALID_HANDLE is none. */
  type Handle = nat

  const INVALID: Handle := 0

  /** `PK11_active` */
  class Entry {
    var h: Handle
    var refcnt: int
    var prev: Entry?
    var next: Entry?

    constructor (handle: Handle)
      ensures h == handle && refcnt == 1 && prev == null && next == null
    {
      h, refcnt, prev, next := handle, 1, null, null;
    }
  }

  // ----- the list as a value -----

  /** What an entry holds. */
  datatype Cell = Cell(h: Handle, refcnt: int, prev: Entry?, next: Entry?)

  ghost function CellsOf(entries: seq<Entry>): (cells: seq<Cell>)
    reads set e | e in entries
    ensures |cells| == |entries|
    ensures forall k :: 0 <= k < |entries| ==>
              cells[k] == Cell(entries[k].h, entries[k].refcnt, entries[k].prev, entries[k].next)
  {
    if entries == [] then []
    else
      var e := entries[|entries| - 1];
      CellsOf(entries[..|entries| - 1]) + [Cell(e.h, e.refcnt, e.prev, e.next)]
  }

  ghost function EntryAt(entries: seq<Entry>, k: int): Entry? {
    if 0 <= k < |entries| then entries[k] else null
  }

  ghost predicate Distinct(entries: seq<Entry>) {
    forall j, k :: 0 <= j < k < |entries| ==> entries[j] != entries[k]
  }

  /** The entries are distinct, so the list is acyclic, and prev and next agree. */
  ghost predicate Linked(entries: seq<Entry>, cells: seq<Cell>, head: Entry?) {
    && Distinct(entries) && |cells| == |entries| && head == EntryAt(entries, 0)
    && forall k :: 0 <= k < |cells| ==>
      cells[k].prev == EntryAt(entries, k - 1) && cells[k].next == EntryAt(entries, k + 1)
  }

  /** Each handle has one entry, with its count. */
  ghost predicate Counted(cells: seq<Cell>, counts: map<Handle, nat>) {
    && (forall j, k :: 0 <= j < k < |cells| ==> cells[j].h != cells[k].h)
    && (forall k :: 0 <= k < |cells| ==> cells[k].h in counts && counts[cells[k].h] == cells[k].refcnt)
    && (forall h :: h in counts ==> h != INVALID && exists k :: 0 <= k < |cells| && cells[k].h == h)
  }

  ghost predicate Positive(counts: map<Handle, nat>) {
    forall h :: h in counts ==> counts[h] > 0
  }

  ghost function PutFirst(cells: seq<Cell>, entry: Entry, h: Handle, head: Entry?): seq<Cell> {
    [Cell(h, 1, null, head)] + if cells == [] then [] else cells[0 := cells[0].(prev := entry)]
  }

  lemma PutFirstLinked(entries: seq<Entry>, cells: seq<Cell>, head: Entry?, entry: Entry, h: Handle)
    requires Linked(entries, cells, head) && entry !in entries
    ensures Linked([entry] + entries, PutFirst(cells, entry, h, head), entry)
  {
  }

  lemma PutFirstCounted(cells: seq<Cell>, counts: map<Handle, nat>, entry: Entry, h: Handle, head: Entry?)
    requires Counted(cells, counts) && h !in counts && h != INVALID
    ensures Counted(PutFirst(cells, entry, h, head), counts[h := 1])
  {
    var cells', counts' := PutFirst(cells, entry, h, head), counts[h := 1];
    forall g | g in counts'
      ensures exists k :: 0 <= k < |cells'| && cells'[k].h == g
    {
      if g == h {
        assert cells'[0].h == g;
      } else {
        var k :| 0 <= k < |cells| && cells[k].h == g;
        assert cells'[k + 1].h == g;
      }
    }
  }

  lemma Recounted(cells: seq<Cell>, counts: map<Handle, nat>, k: nat, n: nat)
    requires Counted(cells, counts) && k < |cells|
    ensures Counted(cells[k := cells[k].(refcnt := n)], counts[cells[k].h := n])
  {
    var cells', counts' := cells[k := cells[k].(refcnt := n)], counts[cells[k].h := n];
    forall g | g in counts'
      ensures exists j :: 0 <= j < |cells'| && cells'[j].h == g
    {
      var j :| 0 <= j < |cells| && cells[j].h == g;
      assert cells'[j].h == g;
    }
  }

  lemma RelinkedCount(entries: seq<Entry>, cells: seq<Cell>, head: Entry?, k: nat, n: nat)
    requires Linked(entries, cells, head) && k < |cells|
    ensures Linked(entries, cells[k := cells[k].(refcnt := n)], head)
  {
  }

  /** The cells without the k-th, its neighbours linked to each other. */
  ghost function Unlinked(cells: seq<Cell>, k: nat): (r: seq<Cell>)
    requires k < |cells|
    ensures |r| == |cells| - 1
    ensures forall j :: 0 <= j < k ==> r[j] == if j == k - 1 then cells[j].(next := cells[k].next) else cells[j]
    ensures forall j :: k <= j < |r| ==> r[j] == if j == k then cells[j + 1].(prev := cells[k].prev) else cells[j + 1]
  {
    seq(|cells| - 1, j requires 0 <= j < |cells| - 1 =>
      if j == k - 1 then cells[j].(next := cells[k].next)
      else if j < k then cells[j]
      else if j == k then cells[j + 1].(prev := cells[k].prev)
      else cells[j + 1])
  }

  lemma UnlinkedLinked(entries: seq<Entry>, cells: seq<Cell>, head: Entry?, k: nat)
    requires Linked(entries, cells, head) && k < |entries|
    ensures Linked(entries[..k] + entries[k + 1..], Unlinked(cells, k), if k == 0 then cells[0].next else head)
  {
  }

  /** Which of the cells the j-th one is when the k-th has gone. */
  function Index(j: nat, k: nat): nat {
    if j < k then j else j + 1
  }

  lemma UnlinkedHandles(cells: seq<Cell>, k: nat)
    requires k < |cells|
    ensures |Unlinked(cells, k)| == |cells| - 1
    ensures forall j :: 0 <= j < |cells| - 1 ==>
              && Unlinked(cells, k)[j].h == cells[Index(j, k)].h
              && Unlinked(cells, k)[j].refcnt == cells[Index(j, k)].refcnt
  {
  }

  lemma UnlinkedCounted(cells: seq<Cell>, counts: map<Handle, nat>, k: nat)
    requires Counted(cells, counts) && k < |cells|
    ensures Counted(Unlinked(cells, k), counts - {cells[k].h})
  {
    hide Unlinked;
    UnlinkedHandles(cells, k);
    var cells', counts' := Unlinked(cells, k), counts - {cells[k].h};
    assert forall j :: 0 <= j < |cells'| ==>
        cells'[j].h == cells[Index(j, k)].h && cells'[j].refcnt == cells[Index(j, k)].refcnt;
    forall i, j | 0 <= i < j < |cells'|
      ensures cells'[i].h != cells'[j].h
    {
      assert cells[Index(i, k)].h != cells[Index(j, k)].h;
    }
    forall j | 0 <= j < |cells'|
      ensures cells'[j].h in counts' && counts'[cells'[j].h] == cells'[j].refcnt
    {
      assert cells[Index(j, k)].h != cells[k].h;
    }
    forall g | g in counts'
      ensures exists j :: 0 <= j < |cells'| && cells'[j].h == g
    {
      var j :| 0 <= j < |cells| && cells[j].h == g;
      var i := if j < k then j else j - 1;
      assert Index(i, k) == j && cells'[i].h == g;
    }
  }

  // ----- the list -----

  /** `active_list[type]` for one type of key. */
  class ActiveList {
    var head: Entry?

    ghost var entries: seq<Entry>
    ghost var counts: map<Handle, nat>

    ghost function Entries(): set<Entry>
      reads this
    {
      set e | e in entries
    }

    ghost predicate Valid()
      reads this, Entries()
    {
      Listed() && Positive(counts)
    }

    ghost predicate Listed()
      reads this, Entries()
    {
      Linked(entries, CellsOf(entries), head) && Counted(CellsOf(entries), counts)
    }

    constructor ()
      ensures Valid() && counts == map[] && entries == []
    {
      head, entries, counts := null, [], map[];
    }

    /** `pk11_active_find` */
    method Find(h: Handle) returns (entry: Entry?, ghost k: nat)
      requires Valid()
      ensures entry == null <==> h !in counts
      ensures entry != null ==> k < |entries| && entry == entries[k] && entry.h == h && counts[h] == entry.refcnt
    {
      hide Linked, Counted, CellsOf;
      ghost var cells := CellsOf(entries);
      HeadIs(entries, cells, head);
      entry, k := head, 0;
      while entry != null
        invariant k <= |entries| && entry == EntryAt(entries, k)
        invariant forall j :: 0 <= j < k ==> cells[j].h != h
        decreases |entries| - k
      {
        assert cells[k].h == entry.h;
        if entry.h == h {
          CountedAt(cells, counts, k);
          return;
        }
        Neighbours(entries, cells, head, k);
        entry := entry.next;
        k := k + 1;
      }
      NotCounted(cells, counts, h);
    }

    /** A new entry at the front. */
    method Insert(entry: Entry)
      requires Valid() && entry !in entries && entry.h !in counts && entry.h != INVALID && entry.refcnt == 1
      requires entry.prev == null && entry.next == null
      modifies this, entry, Entries()
      ensures Valid() && entries == [entry] + old(entries) && counts == old(counts)[old(entry.h) := 1]
      ensures entry.refcnt == 1
    {
      hide Linked, Counted, CellsOf;
      ghost var cells, h := CellsOf(entries), entry.h;
      HeadIs(entries, cells, head);
      PutFirstLinked(entries, cells, head, entry, h);
      PutFirstCounted(cells, counts, entry, h, head);
      ghost var cells' := PutFirst(cells, entry, h, head);
      if head == null {
        head := entry;
      } else {
        entry.next := head;
        head.prev := entry;
        head := entry;
      }
      entries := [entry] + entries;
      counts := counts[h := 1];
      assert CellsOf(entries) == cells';
    }

    /** `pk11_active_add`; memory tells whether an entry could be allocated. */
    method Add(h: Handle, memory: bool) returns (count: int)
      requires Valid()
      modifies this, Entries()
      ensures Valid() && fresh(Entries() - old(Entries()))
      ensures if h == INVALID || (h !in old(counts) && !memory) then count == -1 && counts == old(counts)
              else counts == old(counts)[h := if h in old(counts) then old(counts)[h] + 1 else 1] && count == counts[h]
    {
      hide Linked, Counted, CellsOf;
      if h == INVALID {
        return -1;
      }
      ghost var k;
      var entry;
      entry, k := Find(h);
      if entry != null {
        SetCount(entry, k, entry.refcnt + 1);
      } else {
        if !memory {
          return -1;
        }
        entry := new Entry(h);
        Insert(entry);
        assert Entries() - {entry} <= old(Entries());
      }
      return entry.refcnt;
    }

    method SetCount(entry: Entry, ghost k: nat, n: nat)
      requires Listed() && k < |entries| && entry == entries[k]
      modifies this`counts, entry`refcnt
      ensures Listed() && counts == old(counts)[entry.h := n] && entry.refcnt == n && entry.h == old(entry.h)
    {
      hide Linked, Counted, CellsOf;
      ghost var cells := CellsOf(entries);
      HeadIs(entries, cells, head);
      Recounted(cells, counts, k, n);
      RelinkedCount(entries, cells, head, k, n);
      entry.refcnt := n;
      counts := counts[entry.h := n];
      assert CellsOf(entries) == cells[k := cells[k].(refcnt := n)];
    }

    /** The entry's neighbours, or the head, are linked past it. */
    method Unlink(entry: Entry, ghost k: nat)
      requires Listed() && k < |entries| && entry == entries[k]
      modifies this, Entries()
      ensures entries == old(entries)[..k] + old(entries)[k + 1..] && entry !in entries && entry.h == old(entry.h)
      ensures CellsOf(entries) == Unlinked(old(CellsOf(entries)), k) && counts == old(counts)
      ensures head == if k == 0 then old(entry.next) else old(head)
    {
      hide Linked, Counted, CellsOf;
      ghost var cells := CellsOf(entries);
      Neighbours(entries, cells, head, k);
      var prev_entry := entry.prev;
      if prev_entry != null {
        prev_entry.next := entry.next;
        if entry.next != null {
          entry.next.prev := prev_entry;
        }
      } else {
        head := entry.next;
        if entry.next != null {
          entry.next.prev := null;
        }
      }
      entries := entries[..k] + entries[k + 1..];
    }

    /** `pk11_active_remove` */
    method Remove(entry: Entry, ghost k: nat)
      requires Listed() && k < |entries| && entry == entries[k]
      modifies this, Entries()
      ensures Listed() && counts == old(counts) - {old(entry.h)} && entries == old(entries)[..k] + old(entries)[k + 1..]
    {
      hide Linked, Counted, CellsOf;
      ghost var cells := CellsOf(entries);
      UnlinkedLinked(entries, cells, head, k);
      UnlinkedCounted(cells, counts, k);
      Unlink(entry, k);
      counts := counts - {entry.h};
      entry.h := INVALID;
      entry.prev := null;
      entry.next := null;
      assert CellsOf(entries) == Unlinked(cells, k);
    }

    /** `pk11_active_delete`: 1 when the last reference has gone, 0 when there are others, -1 without an entry. */
    method Delete(h: Handle) returns (r: int)
      requires Valid()
      modifies this, Entries()
      ensures Valid() && Entries() <= old(Entries())
      ensures h !in old(counts) ==> r == -1 && counts == old(counts)
      ensures h in old(counts) && old(counts)[h] == 1 ==> r == 1 && counts == old(counts) - {h}
      ensures h in old(counts) && old(counts)[h] > 1 ==> r == 0 && counts == old(counts)[h := old(counts)[h] - 1]
    {
      hide Linked, Counted, CellsOf;
      ghost var k;
      var entry;
      entry, k := Find(h);
      if entry == null {
        return -1;
      }
      SetCount(entry, k, entry.refcnt - 1);
      if entry.refcnt == 0 {
        Remove(entry, k);
        assert counts == old(counts) - {h};
        return 1;
      }
      return 0;
    }

    /** `pk11_free_active_list` */
    method FreeAll()
      requires Valid()
      modifies this, Entries()
      ensures Valid() && counts == map[] && head == null
    {
      hide Linked, Counted, CellsOf;
      HeadIs(entries, CellsOf(entries), head);
      while head != null
        invariant Valid() && Entries() <= old(Entries()) && head == EntryAt(entries, 0)
        decreases |entries|
      {
        Remove(head, 0);
        HeadIs(entries, CellsOf(entries), head);
      }
      NothingCounted(CellsOf(entries), counts);
    }
  }

  lemma CountedAt(cells: seq<Cell>, counts: map<Handle, nat>, k: nat)
    requires Counted(cells, counts) && k < |cells|
    ensures cells[k].h in counts && counts[cells[k].h] == cells[k].refcnt
  {
  }

  lemma NotCounted(cells: seq<Cell>, counts: map<Handle, nat>, h: Handle)
    requires Counted(cells, counts) && forall j :: 0 <= j < |cells| ==> cells[j].h != h
    ensures h !in counts
  {
  }

  lemma NothingCounted(cells: seq<Cell>, counts: map<Handle, nat>)
    requires Counted(cells, counts) && cells == []
    ensures counts == map[]
  {
  }

  lemma HeadIs(entries: seq<Entry>, cells: seq<Cell>, head: Entry?)
    requires Linked(entries, cells, head)
    ensures head == EntryAt(entries, 0) && Distinct(entries)
  {
  }

  lemma Neighbours(entries: seq<Entry>, cells: seq<Cell>, head: Entry?, k: nat)
    requires Linked(entries, cells, head) && k < |entries|
    ensures Distinct(entries) && cells[k].prev == EntryAt(entries, k - 1) && cells[k].next == EntryAt(entries, k + 1)
    ensures head == EntryAt(entries, 0)
  {
  }
}
