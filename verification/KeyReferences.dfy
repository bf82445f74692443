/**
 * RSA key objects shared by sessions: found or created, held, released and destroyed, by any number of threads.
 * What happens under the object-store lock is one step; everything else a session does is done by its one owner.
 */
module KeyReferences {
  import opened ActiveLists

  /** The attributes an object is looked up by. */
  type Key = seq<nat>

  /** The counts of the active list and the session objects of the provider. */
  datatype Store = Store(counts: map<Handle, nat>, objects: map<Handle, Key>)

  /**
   * What the provider and the allocator answer in one call: the search may find an object (found) or none (INVALID),
   * an object created gets the handle made.
   */
  datatype Answers = Answers(init: bool, find: bool, found: Handle, final: bool, create: bool, made: Handle,
                             dup: bool, memory: bool, undo: bool)

  ghost predicate Sensible(s: Store, key: Key, a: Answers) {
    && (a.found != INVALID ==> a.found in s.objects && s.objects[a.found] == key)
    && a.made != INVALID && a.made !in s.objects
  }

  // ----- the two locked regions -----

  /** `pk11_get_public_rsa_key` and `pk11_get_private_rsa_key` between lock and unlock. */
  function GetKey(s: Store, key: Key, a: Answers): (Handle, Store) {
    if !a.init || !a.find then (INVALID, s)
    else if !a.final then (a.found, s)
    else if a.found == INVALID && !a.create then (INVALID, s)
    else
      var h := if a.found == INVALID then a.made else a.found;
      var s' := if a.found == INVALID then s.(objects := s.objects[h := key]) else s;
      if a.dup && (h in s.counts || a.memory) then
        (h, s'.(counts := s.counts[h := if h in s.counts then s.counts[h] + 1 else 1]))
      else (INVALID, if a.found == INVALID && a.undo then s else s')
  }

  /**
   * What the one who asks for a key gets when the search for it can be closed; creates tells whether an object can be
   * created where none is found. There is a handle exactly if the search has worked, an object was found or created,
   * the numbers could be copied, and the handle was counted already or there is memory for an entry. It is that of the
   * object found, or of one more object, which has the key, and it is counted once more. Without a handle nothing is
   * counted, and an object created has gone, unless the provider fails to destroy it.
   */
  ghost predicate Acquires(s: Store, key: Key, a: Answers, creates: bool, h: Handle, s': Store) {
    var it := if a.found != INVALID then a.found else a.made;
    && (h != INVALID <==>
          && a.init && a.find && (a.found != INVALID || creates)
          && a.dup && (it in s.counts || a.memory))
    && (h != INVALID ==>
          && h == it && s'.objects == (if a.found != INVALID then s.objects else s.objects[h := key])
          && s'.counts == s.counts[h := 1 + if h in s.counts then s.counts[h] else 0])
    && (h == INVALID ==>
          && s'.counts == s.counts
          && s'.objects == if a.init && a.find && a.found == INVALID && creates && !a.undo then s.objects[a.made := key]
                           else s.objects)
  }

  lemma GetKeyAcquires(s: Store, key: Key, a: Answers)
    requires Sensible(s, key, a) && a.final
    ensures var (h, s') := GetKey(s, key, a); Acquires(s, key, a, a.create, h, s')
  {
    assert s == Store(s.counts, s.objects);
  }

  /**
   * TRY_OBJ_DESTROY: ok tells whether the object goes when it is asked for, which persistent ones do not, nor any other
   * that the provider fails to destroy.
   */
  function PutKey(s: Store, h: Handle, ok: bool): Store {
    if h !in s.counts then s
    else if s.counts[h] <= 1 then Store(s.counts - {h}, if ok then s.objects - {h} else s.objects)
    else s.(counts := s.counts[h := s.counts[h] - 1])
  }

  /** The shared data itself. */
  class KeyStore {
    const list: ActiveList
    var objects: map<Handle, Key>

    constructor ()
      ensures list.Valid() && AsStore() == Store(map[], map[]) && fresh(list) && fresh(list.Entries())
    {
      list := new ActiveList();
      objects := map[];
    }

    ghost function AsStore(): Store
      reads this, list
    {
      Store(list.counts, objects)
    }

    /** A key is looked up, created when there is none, and held; any failure after that rolls back. */
    method Get(key: Key, a: Answers) returns (h_key: Handle)
      requires list.Valid() && Sensible(AsStore(), key, a)
      modifies this, list, list.Entries()
      ensures list.Valid() && fresh(list.Entries() - old(list.Entries()))
      ensures (h_key, AsStore()) == GetKey(old(AsStore()), key, a)
    {
      hide Linked, Counted, CellsOf;
      h_key := INVALID;
      if !a.init || !a.find {
        return;
      }
      h_key := a.found;
      if !a.final {
        return;
      }
      if a.found == INVALID {
        if !a.create {
          return;
        }
        h_key := a.made;
        objects := objects[h_key := key];
      }
      var rollback := !a.dup;
      if !rollback {
        var count := list.Add(h_key, a.memory);
        rollback := count < 0;
      }
      if rollback {
        if a.found == INVALID && a.undo {
          objects := objects - {h_key};
          assert objects == old(objects);
        }
        h_key := INVALID;
      }
    }

    /** A key is released, and its object destroyed when that was the last reference. */
    method TryDestroy(h: Handle, ok: bool)
      requires list.Valid()
      modifies this, list, list.Entries()
      ensures list.Valid() && fresh(list.Entries() - old(list.Entries()))
      ensures AsStore() == PutKey(old(AsStore()), h, ok)
    {
      hide Linked, Counted, CellsOf;
      assert h in list.counts ==> list.counts[h] > 0;
      var r := list.Delete(h);
      if r == 1 && ok {
        objects := objects - {h};
      }
    }
  }

  // ----- all runs -----

  /** Where a handle can be held: in a call that has not stored it yet, or in a session's public or private slot. */
  datatype Holder = InCall(call: nat) | InSlot(session: nat, private: bool)

  /** Between the locked region of a release and the clearing of the slot, the slot is stale. */
  datatype State = State(store: Store, holders: map<Holder, Handle>, stale: set<Holder>)

  datatype Step =
    | Acquire(call: nat, key: Key, answers: Answers)
    | Keep(call: nat, slot: Holder)
    | Release(slot: Holder, ok: bool)
    | Clear(slot: Holder)

  ghost predicate Enabled(s: State, step: Step) {
    match step
    case Acquire(c, key, a) => InCall(c) !in s.holders && Sensible(s.store, key, a)
    case Keep(c, k) => InCall(c) in s.holders && k.InSlot? && k !in s.holders && k !in s.stale
    case Release(k, _) => k.InSlot? && k in s.holders
    case Clear(k) => k in s.stale
  }

  ghost function Next(s: State, step: Step): State
    requires Enabled(s, step)
  {
    match step
    case Acquire(c, key, a) =>
      var (h, store) := GetKey(s.store, key, a);
      State(store, if h == INVALID then s.holders else s.holders[InCall(c) := h], s.stale)
    case Keep(c, k) => s.(holders := (s.holders - {InCall(c)})[k := s.holders[InCall(c)]])
    case Release(k, ok) => State(PutKey(s.store, s.holders[k], ok), s.holders - {k}, s.stale + {k})
    case Clear(k) => s.(stale := s.stale - {k})
  }

  /** Who holds a handle. */
  ghost function HoldersOf(s: State, h: Handle): set<Holder> {
    set x | x in s.holders && s.holders[x] == h
  }

  /** The count of every handle is the number of its holders, and what is held exists. */
  ghost predicate Consistent(s: State) {
    && (forall h :: h in s.store.counts <==> HoldersOf(s, h) != {})
    && (forall h :: h in s.store.counts ==>
          s.store.counts[h] == |HoldersOf(s, h)| && h != INVALID && h in s.store.objects)
  }

  /** The search has found an object, and closing the search fails: the handle is returned without being counted. */
  predicate Uncounted(step: Step) {
    step.Acquire? && step.answers.init && step.answers.find && !step.answers.final && step.answers.found != INVALID
  }

  lemma HeldIsCounted(s: State, x: Holder)
    requires Consistent(s) && x in s.holders
    ensures s.holders[x] in s.store.counts && s.holders[x] in s.store.objects && s.holders[x] != INVALID
  {
    assert x in HoldersOf(s, s.holders[x]);
  }

  lemma AcquireHolders(s: State, c: nat, h: Handle, s': State)
    requires InCall(c) !in s.holders && s'.holders == s.holders[InCall(c) := h]
    ensures HoldersOf(s', h) == HoldersOf(s, h) + {InCall(c)} && |HoldersOf(s', h)| == |HoldersOf(s, h)| + 1
    ensures forall g :: g != h ==> HoldersOf(s', g) == HoldersOf(s, g)
  {
    assert HoldersOf(s', h) == HoldersOf(s, h) + {InCall(c)};
    forall g | g != h
      ensures HoldersOf(s', g) == HoldersOf(s, g)
    {
    }
  }

  lemma AcquireConsistent(s: State, c: nat, key: Key, a: Answers)
    requires Consistent(s) && Enabled(s, Acquire(c, key, a)) && !Uncounted(Acquire(c, key, a))
    ensures Consistent(Next(s, Acquire(c, key, a)))
  {
    var s' := Next(s, Acquire(c, key, a));
    var h := GetKey(s.store, key, a).0;
    if h == INVALID {
      assert forall g :: HoldersOf(s', g) == HoldersOf(s, g);
    } else {
      AcquireHolders(s, c, h, s');
      assert InCall(c) in HoldersOf(s', h);
    }
  }

  lemma KeepConsistent(s: State, c: nat, k: Holder)
    requires Consistent(s) && Enabled(s, Keep(c, k))
    ensures Consistent(Next(s, Keep(c, k)))
  {
    var s', x := Next(s, Keep(c, k)), InCall(c);
    var h := s.holders[x];
    assert x in HoldersOf(s, h);
    assert HoldersOf(s', h) == HoldersOf(s, h) - {x} + {k};
    assert k in HoldersOf(s', h);
    forall g | g != h
      ensures HoldersOf(s', g) == HoldersOf(s, g)
    {
    }
  }

  lemma ReleaseHolders(s: State, k: Holder, s': State)
    requires k in s.holders && s'.holders == s.holders - {k}
    ensures var h := s.holders[k];
            && k in HoldersOf(s, h) && HoldersOf(s', h) == HoldersOf(s, h) - {k}
            && |HoldersOf(s', h)| == |HoldersOf(s, h)| - 1
    ensures forall g :: g != s.holders[k] ==> HoldersOf(s', g) == HoldersOf(s, g)
  {
    var h := s.holders[k];
    assert k in HoldersOf(s, h);
    assert HoldersOf(s', h) == HoldersOf(s, h) - {k};
    forall g | g != h
      ensures HoldersOf(s', g) == HoldersOf(s, g)
    {
    }
  }

  lemma ReleaseConsistent(s: State, k: Holder, ok: bool)
    requires Consistent(s) && Enabled(s, Release(k, ok))
    ensures Consistent(Next(s, Release(k, ok)))
  {
    var s' := Next(s, Release(k, ok));
    ReleaseHolders(s, k, s');
    var h := s.holders[k];
    assert h in s.store.counts;
  }

  lemma StepConsistent(s: State, step: Step)
    requires Consistent(s) && Enabled(s, step) && !Uncounted(step)
    ensures Consistent(Next(s, step))
  {
    match step
    case Acquire(c, key, a) => AcquireConsistent(s, c, key, a);
    case Keep(c, k) => KeepConsistent(s, c, k);
    case Release(k, ok) => ReleaseConsistent(s, k, ok);
    case Clear(k) => assert forall g :: HoldersOf(Next(s, step), g) == HoldersOf(s, g);
  }

  /** The step that returns a handle without counting it is the only one that makes counts and holders differ. */
  lemma UncountedBreaks(s: State, step: Step)
    requires Consistent(s) && Enabled(s, step) && Uncounted(step)
    ensures !Consistent(Next(s, step))
  {
    var s', h := Next(s, step), step.answers.found;
    AcquireHolders(s, step.call, h, s');
  }

  ghost predicate IsRun(run: seq<State>, steps: seq<Step>) {
    && |run| == |steps| + 1
    && forall k :: 0 <= k < |steps| ==> Enabled(run[k], steps[k]) && run[k + 1] == Next(run[k], steps[k])
  }

  lemma {:induction false} RunConsistent(run: seq<State>, steps: seq<Step>, k: nat)
    requires IsRun(run, steps) && Consistent(run[0]) && k <= |steps| && forall j :: 0 <= j < k ==> !Uncounted(steps[j])
    ensures Consistent(run[k])
  {
    if k > 0 {
      RunConsistent(run, steps, k - 1);
      StepConsistent(run[k - 1], steps[k - 1]);
    }
  }

  /**
   * Over every run, with threads interleaved in any way and any failures of the provider: counts and holders agree
   * all along, and so no object in use is ever destroyed, exactly if no step returns a handle without counting it.
   */
  lemma RunsAreConsistent(run: seq<State>, steps: seq<Step>)
    requires IsRun(run, steps) && Consistent(run[0])
    ensures (forall k :: 0 <= k < |run| ==> Consistent(run[k]))
            <==> (forall j :: 0 <= j < |steps| ==> !Uncounted(steps[j]))
  {
    if forall j :: 0 <= j < |steps| ==> !Uncounted(steps[j]) {
      forall k | 0 <= k < |run|
        ensures Consistent(run[k])
      {
        RunConsistent(run, steps, k);
      }
    } else {
      var j :| 0 <= j < |steps| && Uncounted(steps[j]);
      if Consistent(run[j]) {
        UncountedBreaks(run[j], steps[j]);
        assert !Consistent(run[j + 1]);
      }
    }
  }

  /** A release destroys the object, if the provider does as it is asked, exactly when nobody else holds its handle. */
  lemma LastReleaseDestroys(s: State, k: Holder)
    requires Consistent(s) && Enabled(s, Release(k, true))
    ensures var h := s.holders[k]; h !in Next(s, Release(k, true)).store.objects <==> HoldersOf(s, h) == {k}
  {
    var s' := Next(s, Release(k, true));
    var h := s.holders[k];
    ReleaseHolders(s, k, s');
    HeldIsCounted(s, k);
    assert |HoldersOf(s', h)| == 0 <==> HoldersOf(s', h) == {};
  }

  /** After an uncounted acquisition, the one counted holder's release destroys an object that is still in use. */
  lemma UncountedIsDestroyed(s: State, step: Step, k: Holder)
    requires Consistent(s) && Enabled(s, step) && Uncounted(step)
    requires k.InSlot? && k in s.holders && s.holders[k] == step.answers.found
    requires HoldersOf(s, step.answers.found) == {k}
    ensures var s1 := Next(s, step);
            Enabled(s1, Release(k, true))
            && var s2 := Next(s1, Release(k, true));
               InCall(step.call) in s2.holders && s2.holders[InCall(step.call)] !in s2.store.objects
  {
  }
}
