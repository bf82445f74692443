/** The RSA key handles a session caches, and when a cached handle is used again for a key. */
module RsaSessions {
  import opened Options
  import opened ActiveLists
  import opened KeyReferences

  /**
   * An `RSA` structure: where it is, its modulus, its public and its private exponent. A key by reference has no
   * private exponent; its private key is in the token.
   */
  datatype Rsa = Rsa(address: nat, n: nat, e: nat, d: Option<nat>)

  /** Which of the numbers can be copied. */
  datatype Copies = Copies(n: bool, e: bool, d: bool)

  function PublicKey(n: nat, e: nat): Key {
    [0, n, e]
  }

  /** The private components follow from the public ones; a key in the token is another one. */
  function PrivateKey(n: nat, e: nat, token: bool): Key {
    [if token then 2 else 1, n, e]
  }

  /** The part of `PK11_SESSION` that caches RSA keys; the numbers serve both keys. */
  class Session {
    var opdata_rsa_pub_key: Handle
    var opdata_rsa_priv_key: Handle
    var opdata_rsa_pub: Option<nat>
    var opdata_rsa_priv: Option<nat>
    var opdata_rsa_n_num: Option<nat>
    var opdata_rsa_e_num: Option<nat>
    var opdata_rsa_d_num: Option<nat>

    constructor ()
      ensures opdata_rsa_pub_key == INVALID && opdata_rsa_priv_key == INVALID
    {
      opdata_rsa_pub_key, opdata_rsa_priv_key := INVALID, INVALID;
      opdata_rsa_pub, opdata_rsa_priv, opdata_rsa_n_num, opdata_rsa_e_num := None, None, None, None;
      opdata_rsa_d_num := None;
    }

    /** No number is cached. */
    predicate NoNumbers()
      reads this
    {
      opdata_rsa_n_num == None && opdata_rsa_e_num == None && opdata_rsa_d_num == None
    }

    /** `destroy_all_rsa_params` */
    method DestroyAllRsaParams()
      modifies this`opdata_rsa_n_num, this`opdata_rsa_e_num, this`opdata_rsa_d_num
      ensures NoNumbers()
    {
      opdata_rsa_n_num, opdata_rsa_e_num, opdata_rsa_d_num := None, None, None;
    }

    twostate predicate SameCache()
      reads this
    {
      && opdata_rsa_n_num == old(opdata_rsa_n_num) && opdata_rsa_e_num == old(opdata_rsa_e_num)
      && opdata_rsa_d_num == old(opdata_rsa_d_num)
    }

    /** The numbers cached are those of rsa. */
    predicate SameNumbers(rsa: Rsa)
      reads this
    {
      opdata_rsa_n_num == Some(rsa.n) && opdata_rsa_e_num == Some(rsa.e)
    }
  }

  /** A handle that is counted denotes an object made from the cached numbers, as long as these are there. */
  ghost predicate Denotes(s: Store, h: Handle, n: Option<nat>, e: Option<nat>, private: bool) {
    h != INVALID ==>
      && h in s.counts && h in s.objects
      && (n.Some? && e.Some? ==>
            if private then IsPrivate(s.objects[h], n.value, e.value) else s.objects[h] == PublicKey(n.value, e.value))
  }

  predicate IsPrivate(key: Key, n: nat, e: nat) {
    key == PrivateKey(n, e, false) || key == PrivateKey(n, e, true)
  }

  lemma PrivateEither(rsa: Rsa)
    ensures IsPrivate(PrivateKey(rsa.n, rsa.e, rsa.d.None?), rsa.n, rsa.e)
  {
  }

  /** What the session caches agrees with the store. */
  ghost predicate Agrees(s: Store, sp: Session)
    reads sp
  {
    && Denotes(s, sp.opdata_rsa_pub_key, sp.opdata_rsa_n_num, sp.opdata_rsa_e_num, false)
    && Denotes(s, sp.opdata_rsa_priv_key, sp.opdata_rsa_n_num, sp.opdata_rsa_e_num, true)
  }

  // ----- the calls on a session as steps of the state machine -----

  /** Where the steps lead, if each of them can be taken. */
  ghost function Taken(st: State, steps: seq<Step>): Option<State>
    decreases |steps|
  {
    if steps == [] then Some(st)
    else if Enabled(st, steps[0]) then Taken(Next(st, steps[0]), steps[1..])
    else None
  }

  /** Such steps are a run. */
  lemma {:induction false} TakenIsRun(st: State, steps: seq<Step>) returns (run: seq<State>)
    requires Taken(st, steps).Some?
    ensures IsRun(run, steps) && run[0] == st && run[|run| - 1] == Taken(st, steps).value
    decreases |steps|
  {
    run := [st];
    if steps != [] {
      var rest := TakenIsRun(Next(st, steps[0]), steps[1..]);
      run := [st] + rest;
      forall k | 0 <= k < |steps|
        ensures Enabled(run[k], steps[k]) && run[k + 1] == Next(run[k], steps[k])
      {
        if k > 0 {
          assert steps[k] == steps[1..][k - 1] && run[k] == rest[k - 1] && run[k + 1] == rest[k];
        }
      }
    }
  }

  lemma {:induction false} TakenJoins(st: State, a: seq<Step>, b: seq<Step>)
    requires Taken(st, a).Some?
    ensures Taken(st, a + b) == Taken(Taken(st, a).value, b)
    decreases |a|
  {
    if a == [] {
      assert a + b == b;
    } else {
      assert (a + b)[1..] == a[1..] + b;
      TakenJoins(Next(st, a[0]), a[1..], b);
    }
  }

  /** Every handle acquired is counted. */
  predicate AllCounted(steps: seq<Step>) {
    forall k :: 0 <= k < |steps| ==> !Uncounted(steps[k])
  }

  /** Calls whose handles are all counted keep counts and holders in agreement, whatever was done before. */
  lemma CallsKeepCounts(st: State, steps: seq<Step>)
    requires Consistent(st) && Taken(st, steps).Some? && AllCounted(steps)
    ensures Consistent(Taken(st, steps).value)
  {
    hide Taken, Consistent;
    var run := TakenIsRun(st, steps);
    RunsAreConsistent(run, steps);
  }

  /** In the state machine the slot holds the handle, and nothing if there is none. */
  ghost predicate SlotHolds(st: State, slot: Holder, h: Handle) {
    slot !in st.stale && if h == INVALID then slot !in st.holders else slot in st.holders && st.holders[slot] == h
  }

  /** The state machine has this store, and the slots of session id hold what sp does. */
  ghost predicate Tracks(st: State, s: Store, sp: Session, id: nat)
    reads sp
  {
    && st.store == s
    && SlotHolds(st, InSlot(id, false), sp.opdata_rsa_pub_key)
    && SlotHolds(st, InSlot(id, true), sp.opdata_rsa_priv_key)
  }

  /** What others hold is as it was. */
  ghost predicate Apart(st: State, st': State, id: nat) {
    forall x :: x != InSlot(id, false) && x != InSlot(id, true) ==>
      && (x in st'.holders <==> x in st.holders) && (x in st.holders ==> st'.holders[x] == st.holders[x])
      && (x in st'.stale <==> x in st.stale)
  }

  function PutHandle(s: Store, h: Handle, ok: bool): Store {
    if h == INVALID then s else PutKey(s, h, ok)
  }

  /** Releasing what a slot holds: a release before the slot is cleared, or nothing. */
  lemma PutIsRun(st: State, id: nat, private: bool, h: Handle, ok: bool, other: Handle) returns (steps: seq<Step>)
    requires SlotHolds(st, InSlot(id, private), h) && SlotHolds(st, InSlot(id, !private), other)
    ensures var r := Taken(st, steps);
            && r.Some? && r.value.store == PutHandle(st.store, h, ok) && Apart(st, r.value, id)
            && SlotHolds(r.value, InSlot(id, private), INVALID) && SlotHolds(r.value, InSlot(id, !private), other)
    ensures AllCounted(steps)
  {
    var slot := InSlot(id, private);
    steps := [];
    if h != INVALID {
      steps := [Release(slot, ok)] + [Clear(slot)];
      var released := Next(st, Release(slot, ok));
      assert steps[1..] == [Clear(slot)] && [Clear(slot)][1..] == [];
      assert Taken(released, [Clear(slot)]) == Some(Next(released, Clear(slot)));
    }
  }

  /** Filling an empty slot: a key is acquired, and kept if there is one. */
  lemma GetIsRun(st: State, id: nat, private: bool, call: nat, key: Key, a: Answers, other: Handle)
    returns (steps: seq<Step>)
    requires SlotHolds(st, InSlot(id, private), INVALID) && SlotHolds(st, InSlot(id, !private), other)
    requires InCall(call) !in st.holders && Sensible(st.store, key, a)
    ensures var r, (h, s) := Taken(st, steps), GetKey(st.store, key, a);
            && r.Some? && r.value.store == s && Apart(st, r.value, id)
            && SlotHolds(r.value, InSlot(id, private), h) && SlotHolds(r.value, InSlot(id, !private), other)
    ensures a.final ==> AllCounted(steps)
  {
    var slot, acquire := InSlot(id, private), Acquire(call, key, a);
    var h := GetKey(st.store, key, a).0;
    var acquired := Next(st, acquire);
    steps := [acquire] + if h == INVALID then [] else [Keep(call, slot)];
    if h == INVALID {
      assert steps[1..] == [];
    } else {
      assert steps[1..] == [Keep(call, slot)] && [Keep(call, slot)][1..] == [];
      assert Taken(acquired, [Keep(call, slot)]) == Some(Next(acquired, Keep(call, slot)));
    }
  }

  /** Releasing both slots of a session. */
  lemma PutBothIsRun(st: State, id: nat, first: bool, h1: Handle, ok1: bool, h2: Handle, ok2: bool)
    returns (steps: seq<Step>)
    requires SlotHolds(st, InSlot(id, first), h1) && SlotHolds(st, InSlot(id, !first), h2)
    ensures var r := Taken(st, steps);
            && r.Some? && r.value.store == PutHandle(PutHandle(st.store, h1, ok1), h2, ok2)
            && SlotHolds(r.value, InSlot(id, first), INVALID) && SlotHolds(r.value, InSlot(id, !first), INVALID)
            && Apart(st, r.value, id)
    ensures AllCounted(steps)
  {
    hide Taken, SlotHolds, Apart, PutHandle;
    var a := PutIsRun(st, id, first, h1, ok1, h2);
    var middle := Taken(st, a).value;
    var b := PutIsRun(middle, id, !first, h2, ok2, INVALID);
    TakenJoins(st, a, b);
    steps := a + b;
    ApartJoins(st, middle, Taken(middle, b).value, id);
  }

  lemma ApartJoins(a: State, b: State, c: State, id: nat)
    requires Apart(a, b, id) && Apart(b, c, id)
    ensures Apart(a, c, id)
  {
  }

  /** What is held and what there is stays; a handle that is counted is that of an object with the key. */
  lemma Acquired(s: Store, key: Key, a: Answers)
    requires Sensible(s, key, a)
    ensures var (h, s') := GetKey(s, key, a);
            && (forall g :: g in s.objects ==> g in s'.objects && s'.objects[g] == s.objects[g])
            && (forall g :: g in s.counts ==> g in s'.counts)
            && (h != INVALID && a.final ==> h in s'.counts && h in s'.objects && s'.objects[h] == key)
  {
  }

  /** No object is created for a key by reference. */
  function Asked(rsa: Rsa, a: Answers): Answers {
    a.(create := a.create && rsa.d.Some?)
  }

  lemma AcquiresExactly(s: Store, key: Key, a: Answers)
    requires Sensible(s, key, a)
    ensures var (h, s') := GetKey(s, key, a);
            if a.final then Acquires(s, key, a, a.create, h, s') else h == Unclosed(a) && s' == s
  {
    if a.final {
      GetKeyAcquires(s, key, a);
    }
  }

  /** The handle returned when closing the search fails: what has been found. */
  function Unclosed(a: Answers): Handle {
    if a.init && a.find then a.found else INVALID
  }

  lemma AskedExactly(s: Store, key: Key, rsa: Rsa, a: Answers)
    requires Sensible(s, key, a)
    ensures var (h, s') := GetKey(s, key, Asked(rsa, a));
            if a.final then Acquires(s, key, a, a.create && rsa.d.Some?, h, s') else h == Unclosed(a) && s' == s
  {
    hide GetKey;
    AskedSensible(s, key, rsa, a);
    AcquiresExactly(s, key, Asked(rsa, a));
  }

  lemma AskedSensible(s: Store, key: Key, rsa: Rsa, a: Answers)
    requires Sensible(s, key, a)
    ensures Sensible(s, key, Asked(rsa, a)) && Asked(rsa, a).final == a.final
  {
  }

  class RsaKeys {
    const ks: KeyStore

    constructor ()
      ensures ks.list.Valid() && ks.AsStore() == Store(map[], map[])
    {
      ks := new KeyStore();
    }

    /** `pk11_destroy_rsa_object_pub` */
    method DestroyPublic(sp: Session, ok: bool)
      requires ks.list.Valid()
      modifies ks, ks.list, ks.list.Entries(), sp
      ensures ks.list.Valid() && fresh(ks.list.Entries() - old(ks.list.Entries()))
      ensures sp.opdata_rsa_pub_key == INVALID && sp.opdata_rsa_priv_key == old(sp.opdata_rsa_priv_key)
      ensures sp.opdata_rsa_priv == old(sp.opdata_rsa_priv)
      ensures if old(sp.opdata_rsa_pub_key) == INVALID then ks.AsStore() == old(ks.AsStore()) && sp.SameCache()
              else ks.AsStore() == PutKey(old(ks.AsStore()), old(sp.opdata_rsa_pub_key), ok) && sp.NoNumbers()
    {
      hide Linked, Counted, CellsOf;
      if sp.opdata_rsa_pub_key != INVALID {
        ks.TryDestroy(sp.opdata_rsa_pub_key, ok);
        sp.opdata_rsa_pub_key := INVALID;
        sp.opdata_rsa_pub := None;
        sp.DestroyAllRsaParams();
      }
    }

    /** `pk11_destroy_rsa_object_priv` */
    method DestroyPrivate(sp: Session, ok: bool)
      requires ks.list.Valid()
      modifies ks, ks.list, ks.list.Entries(), sp
      ensures ks.list.Valid() && fresh(ks.list.Entries() - old(ks.list.Entries()))
      ensures sp.opdata_rsa_priv_key == INVALID && sp.opdata_rsa_pub_key == old(sp.opdata_rsa_pub_key)
      ensures sp.opdata_rsa_pub == old(sp.opdata_rsa_pub)
      ensures if old(sp.opdata_rsa_priv_key) == INVALID then ks.AsStore() == old(ks.AsStore()) && sp.SameCache()
              else ks.AsStore() == PutKey(old(ks.AsStore()), old(sp.opdata_rsa_priv_key), ok) && sp.NoNumbers()
    {
      hide Linked, Counted, CellsOf;
      if sp.opdata_rsa_priv_key != INVALID {
        ks.TryDestroy(sp.opdata_rsa_priv_key, ok);
        sp.opdata_rsa_priv_key := INVALID;
        sp.opdata_rsa_priv := None;
        sp.DestroyAllRsaParams();
      }
    }

    /**
     * `pk11_check_new_rsa_key_pub`: a hit, a session with room for the key, or one whose objects have been released.
     * What it does are steps of the state machine.
     */
    method CheckNewPublic(sp: Session, rsa: Rsa, ok1: bool, ok2: bool, ghost st: State, ghost id: nat)
      returns (hit: bool, ghost steps: seq<Step>)
      requires ks.list.Valid() && Agrees(ks.AsStore(), sp) && Tracks(st, ks.AsStore(), sp, id)
      modifies ks, ks.list, ks.list.Entries(), sp
      ensures ks.list.Valid() && fresh(ks.list.Entries() - old(ks.list.Entries())) && Agrees(ks.AsStore(), sp)
      ensures hit <==>
                && old(sp.opdata_rsa_pub) == Some(rsa.address) && old(sp.SameNumbers(rsa))
                && old(sp.opdata_rsa_pub_key) != INVALID
      ensures hit ==>
                && sp.opdata_rsa_pub_key == old(sp.opdata_rsa_pub_key) && ks.AsStore() == old(ks.AsStore())
                && sp.SameNumbers(rsa)
      ensures !hit ==> sp.opdata_rsa_pub_key == INVALID && (sp.opdata_rsa_priv_key == INVALID || sp.SameNumbers(rsa))
      ensures var r := Taken(st, steps);
              r.Some? && Tracks(r.value, ks.AsStore(), sp, id) && Apart(st, r.value, id)
      ensures AllCounted(steps)
    {
      hide Linked, Counted, CellsOf, PutKey, Taken, Apart, SlotHolds;
      steps := [];
      NoStep(st, id);
      if sp.opdata_rsa_pub == Some(rsa.address) && sp.SameNumbers(rsa) {
        return sp.opdata_rsa_pub_key != INVALID, steps;
      }
      steps := PutBothIsRun(st, id, false, sp.opdata_rsa_pub_key, ok1, sp.opdata_rsa_priv_key, ok2);
      DestroyPublic(sp, ok1);
      DestroyPrivate(sp, ok2);
      return false, steps;
    }

    /** `pk11_check_new_rsa_key_priv` */
    method CheckNewPrivate(sp: Session, rsa: Rsa, ok1: bool, ok2: bool, ghost st: State, ghost id: nat)
      returns (hit: bool, ghost steps: seq<Step>)
      requires ks.list.Valid() && Agrees(ks.AsStore(), sp) && Tracks(st, ks.AsStore(), sp, id)
      modifies ks, ks.list, ks.list.Entries(), sp
      ensures ks.list.Valid() && fresh(ks.list.Entries() - old(ks.list.Entries())) && Agrees(ks.AsStore(), sp)
      ensures hit <==>
                && old(sp.opdata_rsa_priv) == Some(rsa.address) && old(sp.SameNumbers(rsa))
                && old(sp.opdata_rsa_priv_key) != INVALID
      ensures hit ==>
                && sp.opdata_rsa_priv_key == old(sp.opdata_rsa_priv_key) && ks.AsStore() == old(ks.AsStore())
                && sp.SameNumbers(rsa)
      ensures !hit ==> sp.opdata_rsa_priv_key == INVALID && (sp.opdata_rsa_pub_key == INVALID || sp.SameNumbers(rsa))
      ensures var r := Taken(st, steps);
              r.Some? && Tracks(r.value, ks.AsStore(), sp, id) && Apart(st, r.value, id)
      ensures AllCounted(steps)
    {
      hide Linked, Counted, CellsOf, PutKey, Taken, Apart, SlotHolds;
      steps := [];
      NoStep(st, id);
      if sp.opdata_rsa_priv == Some(rsa.address) && sp.SameNumbers(rsa) {
        return sp.opdata_rsa_priv_key != INVALID, steps;
      }
      steps := PutBothIsRun(st, id, true, sp.opdata_rsa_priv_key, ok1, sp.opdata_rsa_pub_key, ok2);
      DestroyPrivate(sp, ok1);
      DestroyPublic(sp, ok2);
      return false, steps;
    }

    /** `pk11_get_public_rsa_key`: what it does to the store, and to the session. */
    method GetPublicKey(rsa: Rsa, sp: Session, a: Answers, copies: Copies) returns (h_key: Handle)
      requires ks.list.Valid() && Sensible(ks.AsStore(), PublicKey(rsa.n, rsa.e), a) && a.dup == (copies.n && copies.e)
      modifies ks, ks.list, ks.list.Entries(), sp
      ensures ks.list.Valid() && fresh(ks.list.Entries() - old(ks.list.Entries()))
      ensures (h_key, ks.AsStore()) == GetKey(old(ks.AsStore()), PublicKey(rsa.n, rsa.e), a)
      ensures sp.opdata_rsa_pub_key == old(sp.opdata_rsa_pub_key)
      ensures sp.opdata_rsa_priv_key == old(sp.opdata_rsa_priv_key)
      ensures sp.SameNumbers(rsa) || sp.opdata_rsa_n_num == None || sp.SameCache()
      ensures sp.opdata_rsa_d_num == old(sp.opdata_rsa_d_num)
      ensures h_key != INVALID && a.final ==> sp.SameNumbers(rsa) && sp.opdata_rsa_pub == Some(rsa.address)
    {
      hide Linked, Counted, CellsOf;
      h_key := ks.Get(PublicKey(rsa.n, rsa.e), a);
      if a.init && a.find && a.final && (a.found != INVALID || a.create) {
        var copied := CacheNumbers(sp, rsa, copies);
        if h_key != INVALID {
          sp.opdata_rsa_pub := Some(rsa.address);
        }
      }
    }

    /**
     * `pk11_get_private_rsa_key`. A key by reference is only looked for, in the token. Private components are copied
     * first, and when that fails the public numbers cached before stay.
     */
    method GetPrivateKey(rsa: Rsa, sp: Session, a: Answers, copies: Copies) returns (h_key: Handle)
      requires ks.list.Valid() && Sensible(ks.AsStore(), PrivateKey(rsa.n, rsa.e, rsa.d.None?), a)
      requires a.dup == ((rsa.d.Some? ==> copies.d) && copies.n && copies.e)
      modifies ks, ks.list, ks.list.Entries(), sp
      ensures ks.list.Valid() && fresh(ks.list.Entries() - old(ks.list.Entries()))
      ensures (h_key, ks.AsStore()) == GetKey(old(ks.AsStore()), PrivateKey(rsa.n, rsa.e, rsa.d.None?), Asked(rsa, a))
      ensures sp.opdata_rsa_pub_key == old(sp.opdata_rsa_pub_key)
      ensures sp.opdata_rsa_priv_key == old(sp.opdata_rsa_priv_key)
      ensures sp.SameNumbers(rsa) || sp.opdata_rsa_n_num == None
              || (sp.opdata_rsa_n_num == old(sp.opdata_rsa_n_num) && sp.opdata_rsa_e_num == old(sp.opdata_rsa_e_num))
      ensures h_key != INVALID && a.final ==>
                sp.SameNumbers(rsa) && sp.opdata_rsa_d_num == rsa.d && sp.opdata_rsa_priv == Some(rsa.address)
      ensures rsa.d.Some? && !copies.d && a.init && a.find && a.final && (a.found != INVALID || a.create) ==>
                && h_key == INVALID && sp.opdata_rsa_d_num == None
                && sp.opdata_rsa_n_num == old(sp.opdata_rsa_n_num) && sp.opdata_rsa_e_num == old(sp.opdata_rsa_e_num)
      ensures rsa.d.None? && a.final && a.found == INVALID ==> h_key == INVALID && ks.AsStore() == old(ks.AsStore())
    {
      hide Linked, Counted, CellsOf;
      var asked := Asked(rsa, a);
      h_key := ks.Get(PrivateKey(rsa.n, rsa.e, rsa.d.None?), asked);
      if asked.init && asked.find && asked.final && (asked.found != INVALID || asked.create) {
        sp.opdata_rsa_d_num := if copies.d then rsa.d else None;
        if rsa.d.Some? && !copies.d {
          return;
        }
        var copied := CacheNumbers(sp, rsa, copies);
        if h_key != INVALID {
          sp.opdata_rsa_priv := Some(rsa.address);
        }
      }
    }

    /** The copies of the public numbers; when one fails there is no modulus. */
    method CacheNumbers(sp: Session, rsa: Rsa, copies: Copies) returns (copied: bool)
      modifies sp`opdata_rsa_n_num, sp`opdata_rsa_e_num
      ensures copied == (copies.n && copies.e) && if copied then sp.SameNumbers(rsa) else sp.opdata_rsa_n_num == None
    {
      sp.opdata_rsa_n_num := if copies.n then Some(rsa.n) else None;
      if !copies.n {
        return false;
      }
      sp.opdata_rsa_e_num := if copies.e then Some(rsa.e) else None;
      if !copies.e {
        sp.opdata_rsa_n_num := None;
      }
      return copies.e;
    }

    /**
     * The handle an RSA operation works with, once `pk11_check_new_rsa_key_pub` has looked at the session: unless it
     * is a handle returned uncounted, it denotes an object made from the caller's key, whether it was cached,
     * found or created. The slot is filled by steps of the state machine.
     */
    method PublicHandle(sp: Session, rsa: Rsa, a: Answers, copies: Copies, ghost st: State, ghost id: nat,
                        ghost call: nat)
      returns (h_pub_key: Handle, ghost steps: seq<Step>)
      requires ks.list.Valid() && Agrees(ks.AsStore(), sp) && Sensible(ks.AsStore(), PublicKey(rsa.n, rsa.e), a)
      requires a.dup == (copies.n && copies.e)
      requires sp.SameNumbers(rsa) || (sp.opdata_rsa_pub_key == INVALID && sp.opdata_rsa_priv_key == INVALID)
      requires Tracks(st, ks.AsStore(), sp, id) && InCall(call) !in st.holders
      modifies ks, ks.list, ks.list.Entries(), sp
      ensures ks.list.Valid() && h_pub_key == sp.opdata_rsa_pub_key
      ensures a.final ==> Agrees(ks.AsStore(), sp)
      ensures a.final && h_pub_key != INVALID ==>
                h_pub_key in ks.objects && ks.objects[h_pub_key] == PublicKey(rsa.n, rsa.e)
      ensures a.final && old(sp.opdata_rsa_pub_key) == INVALID ==>
                Acquires(old(ks.AsStore()), PublicKey(rsa.n, rsa.e), a, a.create, h_pub_key, ks.AsStore())
      ensures !a.final && old(sp.opdata_rsa_pub_key) == INVALID ==>
                h_pub_key == Unclosed(a) && ks.AsStore() == old(ks.AsStore())
      ensures old(sp.opdata_rsa_pub_key) != INVALID ==>
                h_pub_key == old(sp.opdata_rsa_pub_key) && ks.AsStore() == old(ks.AsStore())
      ensures var r := Taken(st, steps);
              r.Some? && Tracks(r.value, ks.AsStore(), sp, id) && Apart(st, r.value, id)
      ensures a.final ==> AllCounted(steps)
    {
      hide Linked, Counted, CellsOf, Taken, Apart, SlotHolds, GetKey, Acquires;
      h_pub_key := sp.opdata_rsa_pub_key;
      steps := [];
      NoStep(st, id);
      if h_pub_key == INVALID {
        Acquired(ks.AsStore(), PublicKey(rsa.n, rsa.e), a);
        AcquiresExactly(ks.AsStore(), PublicKey(rsa.n, rsa.e), a);
        steps := GetIsRun(st, id, false, call, PublicKey(rsa.n, rsa.e), a, sp.opdata_rsa_priv_key);
        h_pub_key := GetPublicKey(rsa, sp, a, copies);
        sp.opdata_rsa_pub_key := h_pub_key;
      }
    }

    /**
     * The same for private keys, after `pk11_check_new_rsa_key_priv`: an object with the caller's numbers, in the token
     * or not; when no handle was cached, in the token exactly for a key by reference.
     */
    method PrivateHandle(sp: Session, rsa: Rsa, a: Answers, copies: Copies, ghost st: State, ghost id: nat,
                         ghost call: nat)
      returns (h_priv_key: Handle, ghost steps: seq<Step>)
      requires ks.list.Valid() && Agrees(ks.AsStore(), sp)
      requires Sensible(ks.AsStore(), PrivateKey(rsa.n, rsa.e, rsa.d.None?), a)
      requires a.dup == ((rsa.d.Some? ==> copies.d) && copies.n && copies.e)
      requires sp.SameNumbers(rsa) || (sp.opdata_rsa_pub_key == INVALID && sp.opdata_rsa_priv_key == INVALID)
      requires Tracks(st, ks.AsStore(), sp, id) && InCall(call) !in st.holders
      modifies ks, ks.list, ks.list.Entries(), sp
      ensures ks.list.Valid() && h_priv_key == sp.opdata_rsa_priv_key
      ensures a.final ==> Agrees(ks.AsStore(), sp)
      ensures a.final && h_priv_key != INVALID ==>
                && h_priv_key in ks.objects && IsPrivate(ks.objects[h_priv_key], rsa.n, rsa.e)
                && (old(sp.opdata_rsa_priv_key) == INVALID ==>
                      ks.objects[h_priv_key] == PrivateKey(rsa.n, rsa.e, rsa.d.None?))
      ensures a.final && old(sp.opdata_rsa_priv_key) == INVALID ==>
                Acquires(old(ks.AsStore()), PrivateKey(rsa.n, rsa.e, rsa.d.None?), a, a.create && rsa.d.Some?,
                         h_priv_key, ks.AsStore())
      ensures !a.final && old(sp.opdata_rsa_priv_key) == INVALID ==>
                h_priv_key == Unclosed(a) && ks.AsStore() == old(ks.AsStore())
      ensures old(sp.opdata_rsa_priv_key) != INVALID ==>
                h_priv_key == old(sp.opdata_rsa_priv_key) && ks.AsStore() == old(ks.AsStore())
      ensures var r := Taken(st, steps);
              r.Some? && Tracks(r.value, ks.AsStore(), sp, id) && Apart(st, r.value, id)
      ensures a.final ==> AllCounted(steps)
    {
      hide Linked, Counted, CellsOf, Taken, Apart, SlotHolds, GetKey, Acquires;
      hide PrivateKey, PublicKey, IsPrivate, Sensible, Asked;
      PrivateEither(rsa);
      h_priv_key := sp.opdata_rsa_priv_key;
      steps := [];
      NoStep(st, id);
      if h_priv_key == INVALID {
        ghost var key, pub := PrivateKey(rsa.n, rsa.e, rsa.d.None?), sp.opdata_rsa_pub_key;
        AskedSensible(ks.AsStore(), key, rsa, a);
        Acquired(ks.AsStore(), key, Asked(rsa, a));
        AskedExactly(ks.AsStore(), key, rsa, a);
        steps := GetIsRun(st, id, true, call, key, Asked(rsa, a), pub);
        h_priv_key := GetPrivateKey(rsa, sp, a, copies);
        sp.opdata_rsa_priv_key := h_priv_key;
      }
    }
  }

  lemma NoStep(st: State, id: nat)
    ensures Taken(st, []) == Some(st) && Apart(st, st, id)
  {
  }
}
