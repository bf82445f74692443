/** Sessions of the digest operation: each is on the free list or belongs to one context, whatever fails. */
module DigestSessions {

  /** `PK11_SESSION`, as a member of the free list. Its pid is 0 until it has been set up; there is one process. */
  class Session {
    var next: Session?
    var pid: nat

    constructor ()
      ensures next == null && pid == 0
    {
      next, pid := null, 0;
    }
  }

  /** The engine's part of a digest context, `PK11_CIPHER_STATE`. */
  class Context {
    var sp: Session?

    constructor ()
      ensures sp == null
    {
      sp := null;
    }
  }

  /** What may go wrong when a session is wanted and a digest is started on it. */
  datatype Luck = Luck(known: bool, memory: bool, setup: bool, init: bool)

  /** `session_cache[OP_DIGEST]`, and the contexts there are. */
  class Digests {
    const getpid: nat
    var head: Session?

    ghost var free: seq<Session>
    ghost var contexts: set<Context>

    ghost function Sessions(): set<Session>
      reads this
    {
      set s | s in free
    }

    ghost function FreeAt(k: int): Session?
      reads this
    {
      if 0 <= k < |free| then free[k] else null
    }

    /** The free list is acyclic, without duplicates, and ends. */
    ghost predicate Listed()
      reads this, Sessions()
    {
      && (forall j, k :: 0 <= j < k < |free| ==> free[j] != free[k])
      && head == FreeAt(0)
      && (forall k :: 0 <= k < |free| ==> free[k].next == FreeAt(k + 1))
      && (forall k :: 0 <= k < |free| ==> free[k].pid == getpid)
    }

    /** The sessions the contexts in cs hold. */
    ghost function HeldBy(cs: set<Context>): set<Session>
      reads cs
    {
      set c | c in cs && c.sp != null :: c.sp
    }

    /** No session is held and free, and none is held by two contexts. */
    ghost predicate Linear(cs: set<Context>)
      reads this, cs
    {
      && HeldBy(cs) !! Sessions()
      && (forall c, d :: c in cs && d in cs && c != d && c.sp != null ==> c.sp != d.sp)
    }

    /** Everything is in order, as far as the contexts in cs are concerned. */
    ghost predicate ValidFor(cs: set<Context>)
      reads this, cs, Sessions(), HeldBy(cs)
    {
      && getpid != 0 && Listed() && Linear(cs)
      && forall s :: s in HeldBy(cs) ==> s.pid == getpid
    }

    ghost predicate Valid()
      reads this, contexts, Sessions(), HeldBy(contexts)
    {
      ValidFor(contexts)
    }

    constructor (pid: nat)
      requires pid != 0
      ensures Valid() && free == [] && contexts == {}
    {
      getpid, head, free, contexts := pid, null, [], {};
    }

    /** A new context holds nothing. */
    method NewContext() returns (c: Context)
      requires Valid()
      modifies this`contexts
      ensures Valid() && fresh(c) && contexts == old(contexts) + {c} && c.sp == null && free == old(free)
    {
      c := new Context();
      contexts := contexts + {c};
    }

    /** `pk11_get_session`: the first of the free list, or a new one; null when memory or the provider fail. */
    method GetSession(luck: Luck, ghost cs: set<Context>) returns (sp: Session?)
      requires ValidFor(cs)
      modifies this`head, this`free, Sessions()
      ensures ValidFor(cs) && HeldBy(cs) == old(HeldBy(cs))
      ensures sp != null ==> sp !in Sessions() && sp !in HeldBy(cs) && sp.next == null && sp.pid == getpid
      ensures if old(free) == [] then
                free == [] && (sp != null ==> fresh(sp)) && (sp == null <==> !luck.memory || !luck.setup)
              else sp == old(free)[0] && free == old(free)[1..]
    {
      sp := head;
      var freelist := head;
      if sp == null {
        if !luck.memory {
          return null;
        }
        sp := new Session();
      } else {
        freelist := sp.next;
      }
      if sp.pid == 0 {
        if !luck.setup {
          return null;
        }
        sp.pid := getpid;
      }
      head := freelist;
      free := if free == [] then [] else free[1..];
      sp.next := null;
      assert old(free) != [] ==> old(free) == [sp] + free;
      assert Sessions() == old(Sessions()) - {sp};
      assert HeldBy(cs) == old(HeldBy(cs));
    }

    /** `pk11_return_session` */
    method ReturnSession(sp: Session, ghost cs: set<Context>)
      requires ValidFor(cs) && sp !in Sessions() && sp !in HeldBy(cs) && sp.pid == getpid
      modifies this`head, this`free, sp`next
      ensures ValidFor(cs) && free == [sp] + old(free) && HeldBy(cs) == old(HeldBy(cs))
    {
      sp.next := head;
      head := sp;
      free := [sp] + free;
      assert free[0] == sp && free[1..] == old(free);
      assert Sessions() == old(Sessions()) + {sp};
      assert HeldBy(cs) == old(HeldBy(cs));
    }

    /** Without one of the contexts, what it holds belongs to nobody. */
    lemma Without(c: Context)
      requires Valid() && c in contexts
      ensures ValidFor(contexts - {c})
      ensures c.sp != null ==> c.sp !in Sessions() && c.sp !in HeldBy(contexts - {c}) && c.sp.pid == getpid
      ensures HeldBy(contexts) == HeldBy(contexts - {c}) + if c.sp == null then {} else {c.sp}
    {
    }

    /** A context that holds nothing, or what belongs to nobody, can be added. */
    lemma With(c: Context)
      requires c in contexts && ValidFor(contexts - {c})
      requires c.sp != null ==> c.sp !in Sessions() && c.sp !in HeldBy(contexts - {c}) && c.sp.pid == getpid
      ensures Valid()
      ensures HeldBy(contexts) == HeldBy(contexts - {c}) + if c.sp == null then {} else {c.sp}
    {
      assert HeldBy(contexts) == HeldBy(contexts - {c}) + if c.sp == null then {} else {c.sp};
    }

    /** `pk11_digest_init`: whatever the context referred to before is forgotten. */
    method Init(c: Context, luck: Luck) returns (ok: bool)
      requires c in contexts && ValidFor(contexts - {c})
      modifies this`head, this`free, Sessions(), c
      ensures Valid() && contexts == old(contexts) && (ok <==> c.sp != null)
      ensures ok <==> luck.known && luck.init && (old(free) != [] || (luck.memory && luck.setup))
      ensures old(free) != [] ==> if ok then old(free) == [c.sp] + free else free == old(free)
      ensures HeldBy(contexts - {c}) == old(HeldBy(contexts - {c})) && old(Sessions()) <= Sessions() + HeldBy(contexts)
      ensures c.sp != null ==> c.sp !in HeldBy(contexts - {c})
    {
      ghost var others := contexts - {c};
      c.sp := null;
      assert HeldBy(others) == old(HeldBy(others));
      With(c);
      if !luck.known {
        return false;
      }
      var sp := GetSession(luck, others);
      if sp == null {
        With(c);
        return false;
      }
      if !luck.init {
        ReturnSession(sp, others);
        With(c);
        return false;
      }
      c.sp := sp;
      assert HeldBy(others) == old(HeldBy(others));
      With(c);
      return true;
    }

    /** The context gives its session back. */
    method GiveBack(c: Context)
      requires Valid() && c in contexts && c.sp != null
      modifies this`head, this`free, c, c.sp`next
      ensures Valid() && contexts == old(contexts) && c.sp == null && free == [old(c.sp)] + old(free)
      ensures HeldBy(contexts - {c}) == old(HeldBy(contexts - {c}))
    {
      ghost var others := contexts - {c};
      Without(c);
      ReturnSession(c.sp, others);
      c.sp := null;
      assert HeldBy(others) == old(HeldBy(others));
      With(c);
    }

    /** `pk11_digest_update`: a failure of the provider costs the context its session. */
    method Update(c: Context, count: nat, provider: bool) returns (ok: bool)
      requires Valid() && c in contexts
      modifies this`head, this`free, c, if c.sp == null then {} else {c.sp}
      ensures Valid() && contexts == old(contexts) && HeldBy(contexts - {c}) == old(HeldBy(contexts - {c}))
      ensures ok <==> count == 0 || (old(c.sp) != null && provider)
      ensures if ok || old(c.sp) == null then c.sp == old(c.sp) && free == old(free)
              else c.sp == null && free == [old(c.sp)] + old(free)
    {
      if count == 0 {
        return true;
      }
      if c.sp == null {
        return false;
      }
      if !provider {
        GiveBack(c);
        return false;
      }
      return true;
    }

    /** `pk11_digest_final`: a digest of an unexpected length leaves the session with the context. */
    method Final(c: Context, provider: bool, length: bool) returns (ok: bool)
      requires Valid() && c in contexts
      modifies this`head, this`free, c, if c.sp == null then {} else {c.sp}
      ensures Valid() && contexts == old(contexts) && HeldBy(contexts - {c}) == old(HeldBy(contexts - {c}))
      ensures ok <==> old(c.sp) != null && provider && length
      ensures if old(c.sp) == null || (provider && !length) then c.sp == old(c.sp) && free == old(free)
              else c.sp == null && free == [old(c.sp)] + old(free)
    {
      if c.sp == null {
        return false;
      }
      if !provider {
        GiveBack(c);
        return false;
      }
      if !length {
        return false;
      }
      GiveBack(c);
      return true;
    }

    /**
     * `pk11_digest_copy`, called on a copy of the context it copies from: to refers to the same session as from
     * until a session of its own is found for it.
     */
    method Copy(to: Context, from: Context, luck: Luck, size: bool, memory: bool, get: bool, setState: bool)
      returns (ok: bool)
      requires to in contexts && from in contexts && to != from && ValidFor(contexts - {to}) && to.sp == from.sp
      modifies this`head, this`free, Sessions(), to
      ensures Valid() && contexts == old(contexts) && HeldBy(contexts - {to}) == old(HeldBy(contexts - {to}))
      ensures from.sp == old(from.sp) && (ok ==> to.sp != null && to.sp != from.sp)
      ensures ok <==>
                && from.sp != null && luck.known && luck.init && (old(free) != [] || (luck.memory && luck.setup))
                && size && memory && get && setState
      ensures old(Sessions()) <= Sessions() + HeldBy(contexts)
    {
      if from.sp == null {
        With(to);
        return false;
      }
      ok := Init(to, luck);
      if !ok {
        return false;
      }
      assert from in contexts - {to};
      assert from.sp in HeldBy(contexts - {to});
      return size && memory && get && setState;
    }

    /** `pk11_digest_cleanup` */
    method Cleanup(c: Context, provider: bool, length: bool) returns (ok: bool)
      requires Valid() && c in contexts
      modifies this`head, this`free, c, if c.sp == null then {} else {c.sp}
      ensures Valid() && contexts == old(contexts) && HeldBy(contexts - {c}) == old(HeldBy(contexts - {c}))
      ensures ok <==> old(c.sp) == null || (provider && length)
      ensures c.sp == if provider && !length then old(c.sp) else null
    {
      if c.sp != null {
        ok := Final(c, provider, length);
        if !ok {
          return false;
        }
      }
      return true;
    }
  }
}
