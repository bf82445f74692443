/** Secret key objects cached in sessions: what key the object of a session is made from, and when it is used again. */
module CipherKeys {
  import opened Bytes
  import opened ActiveLists

  /** PK11_KEY_LEN_MAX */
  const KEY_MAX: nat := 32

  /** Neither encrypting nor decrypting. */
  const IDLE: int := -1

  /** A secret key object: the type it was created with, and its bytes. */
  datatype Secret = Secret(kind: nat, value: seq<byte>)

  /** The first bytes of a key, as many as a session has room for. */
  function Prefix(key: seq<byte>): seq<byte> {
    if |key| > KEY_MAX then key[..KEY_MAX] else key
  }

  /** The part of `PK11_SESSION` that caches a secret key. */
  class Session {
    var opdata_cipher_key: Handle
    var opdata_key_len: nat
    const opdata_key: array<byte>
    var opdata_encrypt: int

    /** `pk11_setup_session` */
    constructor ()
      ensures opdata_cipher_key == INVALID && opdata_key_len == 0 && opdata_key.Length == KEY_MAX
      ensures opdata_encrypt == IDLE
      ensures fresh(opdata_key)
    {
      opdata_cipher_key, opdata_key_len, opdata_encrypt := INVALID, 0, IDLE;
      opdata_key := new byte[KEY_MAX];
    }

    ghost function Cached(): seq<byte>
      requires opdata_key_len <= opdata_key.Length
      reads this, opdata_key
    {
      opdata_key[..opdata_key_len]
    }
  }

  /** What the provider answers in one `pk11_cipher_init`. */
  datatype Answers = Answers(destroy: bool, create: bool, made: Handle, reopen: bool, init: bool)

  /** The secret key objects of the global session, and the sessions there are. */
  class Ciphers {
    var objects: map<Handle, Secret>
    ghost var sessions: set<Session>

    ghost function Buffers(): set<array<byte>>
      reads this
    {
      set s | s in sessions :: s.opdata_key
    }

    /**
     * A session's handle denotes an object made from a key whose first bytes the session has cached; sessions share
     * none.
     */
    ghost predicate Caches(s: Session)
      reads this, s, s.opdata_key
    {
      && s.opdata_key.Length == KEY_MAX && s.opdata_key_len <= KEY_MAX
      && (s.opdata_cipher_key != INVALID ==>
            s.opdata_cipher_key in objects && s.Cached() == Prefix(objects[s.opdata_cipher_key].value))
    }

    ghost predicate Valid()
      reads this, sessions, Buffers()
    {
      && (forall s :: s in sessions ==> Caches(s))
      && (forall s, t :: s in sessions && t in sessions && s != t ==>
            && s.opdata_key != t.opdata_key
            && (s.opdata_cipher_key != INVALID ==> s.opdata_cipher_key != t.opdata_cipher_key))
    }

    constructor ()
      ensures Valid() && objects == map[] && sessions == {}
    {
      objects, sessions := map[], {};
    }

    /** A session opened for ciphers. */
    method NewSession() returns (s: Session)
      requires Valid()
      modifies this`sessions
      ensures Valid() && fresh(s) && sessions == old(sessions) + {s} && s.opdata_cipher_key == INVALID
    {
      s := new Session();
      sessions := sessions + {s};
    }

    /** `pk11_destroy_cipher_key_objects` for one session. */
    method DestroyKeyObject(s: Session, destroy: bool)
      requires Valid() && s in sessions
      modifies this`objects, s`opdata_cipher_key
      ensures Valid()
      ensures if old(s.opdata_cipher_key) == INVALID || !destroy
              then s.opdata_cipher_key == old(s.opdata_cipher_key) && objects == old(objects)
              else s.opdata_cipher_key == INVALID && objects == old(objects) - {old(s.opdata_cipher_key)}
    {
      if s.opdata_cipher_key != INVALID {
        if !destroy {
          return;
        }
        objects := objects - {s.opdata_cipher_key};
        s.opdata_cipher_key := INVALID;
      }
    }

    /** `memcmp` of the cached key with the first bytes of another one. */
    method SameBytes(s: Session, key: seq<byte>) returns (same: bool)
      requires |key| <= s.opdata_key.Length
      ensures same <==> s.opdata_key[..|key|] == key
    {
      var k := 0;
      while k < |key|
        invariant k <= |key| && s.opdata_key[..k] == key[..k]
      {
        if s.opdata_key[k] != key[k] {
          assert s.opdata_key[..|key|][k] != key[k];
          return false;
        }
        k := k + 1;
      }
      assert key[..k] == key;
      return true;
    }

    /** `check_new_cipher_key`: a different key costs the session its object, if the provider destroys it. */
    method CheckNew(s: Session, key: seq<byte>, destroy: bool) returns (hit: bool)
      requires Valid() && s in sessions
      modifies this`objects, s`opdata_cipher_key
      ensures Valid() && (hit <==> old(s.Cached()) == key)
      ensures if hit || old(s.opdata_cipher_key) == INVALID || !destroy
              then s.opdata_cipher_key == old(s.opdata_cipher_key) && objects == old(objects)
              else s.opdata_cipher_key == INVALID && objects == old(objects) - {old(s.opdata_cipher_key)}
    {
      assert Caches(s);
      var same := s.opdata_key_len == |key|;
      if same {
        same := SameBytes(s, key);
      }
      if !same {
        DestroyKeyObject(s, destroy);
        return false;
      }
      return true;
    }

    /**
     * `pk11_get_cipher_key`: an object of the type asked for, made from the whole key, of which the session caches what
     * it has room for, and nothing of the type.
     */
    method GetCipherKey(s: Session, kind: nat, key: seq<byte>, create: bool, made: Handle) returns (h_key: Handle)
      requires Valid() && s in sessions && s.opdata_cipher_key == INVALID && Unused(made)
      modifies this`objects, s`opdata_key_len, s.opdata_key
      ensures s.opdata_cipher_key == INVALID && Valid()
      ensures if create then
                && h_key == made && objects == old(objects)[made := Secret(kind, key)]
                && s.opdata_key_len <= KEY_MAX && s.Cached() == Prefix(key)
              else h_key == INVALID && objects == old(objects)
    {
      assert Caches(s);
      if !create {
        return INVALID;
      }
      objects := objects[made := Secret(kind, key)];
      s.opdata_key_len := if |key| > KEY_MAX then KEY_MAX else |key|;
      var k := 0;
      while k < s.opdata_key_len
        invariant k <= s.opdata_key_len == |Prefix(key)| && s.opdata_key[..k] == key[..k]
        invariant objects == old(objects)[made := Secret(kind, key)]
        invariant s.opdata_cipher_key == INVALID
        modifies s.opdata_key
      {
        s.opdata_key[k] := key[k];
        k := k + 1;
      }
      assert forall t :: t in sessions && t != s ==> t.opdata_key != s.opdata_key;
      return made;
    }

    /** A handle the provider has not given out, nor any session refers to. */
    ghost predicate Unused(made: Handle)
      reads this, sessions
    {
      made != INVALID && made !in objects && forall s :: s in sessions ==> s.opdata_cipher_key != made
    }

    /**
     * Will the session's object, once the session has been initialized for the key, be one of that type made from just
     * this key? A key is a hit when it is the cached part of the old one, whatever the type, so the old one must not be
     * longer than that part, nor of another type; on a miss the old object must go away, unless it was the same all
     * along.
     */
    ghost predicate Serves(s: Session, kind: nat, key: seq<byte>, destroy: bool)
      requires Valid() && s in sessions
      reads this, sessions, Buffers()
    {
      assert Caches(s);
      s.opdata_cipher_key == INVALID ||
      var current := objects[s.opdata_cipher_key];
      if Prefix(current.value) == key then |current.value| <= KEY_MAX && current.kind == kind
      else destroy || current == Secret(kind, key)
    }

    /** No key has been longer than what a session can cache. */
    ghost predicate Short()
      reads this
    {
      forall h :: h in objects ==> |objects[h].value| <= KEY_MAX
    }

    /** A key as long as the cache, and the beginning of the longer key cached before it, is taken for that key. */
    lemma FalseHit(s: Session)
      requires Valid() && s in sessions && s.opdata_cipher_key != INVALID && Caches(s)
      requires |objects[s.opdata_cipher_key].value| > KEY_MAX
      ensures var current := objects[s.opdata_cipher_key]; !Serves(s, current.kind, current.value[..KEY_MAX], true)
    {
    }

    /** The bytes of a key cached for one cipher are taken for a key of another: the object is of the wrong type. */
    lemma OtherKind(s: Session, kind: nat)
      requires Valid() && s in sessions && s.opdata_cipher_key != INVALID && Caches(s)
      requires var current := objects[s.opdata_cipher_key]; |current.value| <= KEY_MAX && current.kind != kind
      ensures !Serves(s, kind, objects[s.opdata_cipher_key].value, true)
    {
    }

    /** `pk11_cipher_init` on a session taken from the free list, for a cipher whose keys are of that type. */
    method Init(s: Session, kind: nat, key: seq<byte>, encrypt: int, a: Answers) returns (ok: bool)
      requires Valid() && s in sessions && Unused(a.made) && 0 <= encrypt <= 1
      modifies this`objects, s, s.opdata_key
      ensures Valid() && sessions == old(sessions)
      ensures ok <==>
                && a.init && (old(s.opdata_encrypt) == encrypt || old(s.opdata_encrypt) == IDLE || a.reopen)
                && (a.create || (old(s.opdata_cipher_key) != INVALID && (old(s.Cached()) == key || !a.destroy)))
      ensures ok ==> s.opdata_cipher_key != INVALID && s.opdata_cipher_key in objects && s.opdata_encrypt == encrypt
      ensures ok ==> (objects[s.opdata_cipher_key] == Secret(kind, key) <==> old(Serves(s, kind, key, a.destroy)))
      ensures old(Short()) && |key| <= KEY_MAX ==>
                Short() && (a.destroy && ok ==> objects[s.opdata_cipher_key].value == key)
    {
      var hit := CheckNew(s, key, a.destroy);
      assert Caches(s);
      if s.opdata_cipher_key != INVALID && s.opdata_encrypt == encrypt {
        return a.init;
      }
      if s.opdata_cipher_key == INVALID {
        FillKey(s, kind, key, a.create, a.made);
      }
      if s.opdata_encrypt != encrypt && s.opdata_encrypt != IDLE {
        if !a.reopen {
          return false;
        }
      }
      if s.opdata_cipher_key == INVALID {
        return false;
      }
      if !a.init {
        return false;
      }
      s.opdata_encrypt := encrypt;
      return true;
    }

    /** `sp->opdata_cipher_key = pk11_get_cipher_key(...)` */
    method FillKey(s: Session, kind: nat, key: seq<byte>, create: bool, made: Handle)
      requires Valid() && s in sessions && s.opdata_cipher_key == INVALID && Unused(made)
      modifies this`objects, s`opdata_key_len, s`opdata_cipher_key, s.opdata_key
      ensures Valid()
      ensures if create then s.opdata_cipher_key == made && objects == old(objects)[made := Secret(kind, key)]
              else s.opdata_cipher_key == INVALID && objects == old(objects)
    {
      s.opdata_cipher_key := GetCipherKey(s, kind, key, create, made);
      assert forall t :: t in sessions && t != s ==> Caches(t);
    }
  }
}
