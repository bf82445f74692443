/** Bytes, NUL-terminated text and the bitmaps that bracket classes compile to. */
module Bytes {
  type byte = b: int | 0 <= b < 256

  // characters with a meaning in more than one place
  const NEWLINE: byte := 10
  const ZERO: byte := 48
  const ONE: byte := 49
  const NINE: byte := 57
  const BACKSLASH: byte := 92

  /** What C reads at offset i of a NUL-terminated string: the terminator sits at |s|. */
  function At(s: seq<byte>, i: nat): byte
    requires i <= |s|
  {
    if i < |s| then s[i] else 0
  }

  ghost predicate NulFree(s: seq<byte>) {
    forall i :: 0 <= i < |s| ==> s[i] != 0
  }

  // ----- bits of a number, lowest first -----

  function Pow2(n: nat): (p: nat)
    ensures p >= 1
  {
    if n == 0 then 1 else 2 * Pow2(n - 1)
  }

  /** `b & (1 << j)` */
  predicate HasBit(b: nat, j: nat) {
    if j == 0 then b % 2 == 1 else HasBit(b / 2, j - 1)
  }

  /** `b | (1 << j)` */
  function SetBit(b: nat, j: nat): nat {
    if j == 0 then b + 1 - b % 2 else b % 2 + 2 * SetBit(b / 2, j - 1)
  }

  // ----- a set of byte values laid out as bits, eight to a byte -----

  /** The n values base .. base+n-1 packed into n bits: bit j tells whether base + j is in s. */
  function Pack(s: set<byte>, base: nat, n: nat): (r: nat)
    ensures r < Pow2(n)
    decreases n, s
  {
    if n == 0 then 0
    else (if base in s then 1 else 0) + 2 * Pack(s, base + 1, n - 1)
  }

  function MapByte(s: set<byte>, k: nat): byte {
    assert Pow2(8) == 256;
    Pack(s, 8 * k, 8)
  }

  function Bitmap(s: set<byte>, n: nat): (m: seq<byte>)
    ensures |m| == n
  {
    seq(n, k requires 0 <= k => MapByte(s, k))
  }

  /** `PLACE(c)` on the byte holding c. */
  function Place(b: byte, c: byte): byte {
    SetBitFits(b, c % 8, 8);
    assert Pow2(8) == 256;
    SetBit(b, c % 8)
  }

  lemma {:induction false} SetBitFits(b: nat, j: nat, n: nat)
    requires j < n && b < Pow2(n)
    ensures SetBit(b, j) < Pow2(n)
    decreases n
  {
    assert Pow2(n) == 2 * Pow2(n - 1);
    if j > 0 {
      assert b / 2 < Pow2(n - 1);
      SetBitFits(b / 2, j - 1, n - 1);
    }
  }

  /** `ISTHERE(c)` on the byte holding c. */
  predicate IsThere(b: byte, c: byte) {
    HasBit(b, c % 8)
  }

  lemma {:induction false} PackHasBit(s: set<byte>, base: nat, n: nat, j: nat)
    requires j < n
    ensures HasBit(Pack(s, base, n), j) <==> base + j in s
    decreases n
  {
    if j > 0 {
      PackHasBit(s, base + 1, n - 1, j - 1);
      assert Pack(s, base, n) / 2 == Pack(s, base + 1, n - 1);
    }
  }

  lemma {:induction false} PackFrame(s: set<byte>, t: set<byte>, base: nat, n: nat)
    requires forall b :: base <= b < base + n ==> (b in s <==> b in t)
    ensures Pack(s, base, n) == Pack(t, base, n)
    decreases n
  {
    if n > 0 {
      PackFrame(s, t, base + 1, n - 1);
    }
  }

  lemma {:induction false} PackSetBit(s: set<byte>, base: nat, n: nat, j: nat)
    requires j < n && base + j < 256
    ensures SetBit(Pack(s, base, n), j) == Pack(s + {base + j}, base, n)
    decreases n
  {
    assert Pack(s, base, n) / 2 == Pack(s, base + 1, n - 1);
    if j == 0 {
      PackFrame(s, s + {base}, base + 1, n - 1);
    } else {
      PackSetBit(s, base + 1, n - 1, j - 1);
    }
  }

  lemma {:induction false} PackComplement(s: set<byte>, t: set<byte>, base: nat, n: nat)
    requires forall b :: base <= b < base + n ==> (b in s <==> b !in t)
    ensures Pack(s, base, n) == Pow2(n) - 1 - Pack(t, base, n)
    decreases n
  {
    if n > 0 {
      PackComplement(s, t, base + 1, n - 1);
    }
  }

  /** Placing c in the byte that holds it adds exactly c to the set the bitmap lays out. */
  lemma PlaceAddsOne(s: set<byte>, c: byte)
    ensures Place(MapByte(s, c / 8), c) == MapByte(s + {c}, c / 8)
    ensures forall k: nat :: k != c / 8 ==> MapByte(s, k) == MapByte(s + {c}, k)
  {
    assert 8 * (c / 8) + c % 8 == c;
    assert Pow2(8) == 256;
    PackSetBit(s, 8 * (c / 8), 8, c % 8);
    forall k: nat | k != c / 8
      ensures MapByte(s, k) == MapByte(s + {c}, k)
    {
      PackFrame(s, s + {c}, 8 * k, 8);
    }
  }

  /** The bit test on a bitmap decides membership in the set it lays out. */
  lemma IsThereDecides(s: set<byte>, n: nat, c: byte)
    requires c / 8 < n
    ensures IsThere(Bitmap(s, n)[c / 8], c) <==> c in s
  {
    assert 8 * (c / 8) + c % 8 == c;
    PackHasBit(s, 8 * (c / 8), 8, c % 8);
  }
}
