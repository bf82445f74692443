/** `sed_compile`: the text of a basic regular expression is compiled into a byte buffer, in place. */
module RegexCompiler {
  import opened Options
  import opened Bytes
  import opened Program
  import opened RegexSpec

  /** The script being compiled: the line, the reading position and the latest error number. */
  class Commands {
    const linebuf: seq<byte>
    var cp: nat
    var regerr: nat

    constructor (line: seq<byte>)
      ensures linebuf == line && cp == 0 && regerr == 0
    {
      linebuf, cp, regerr := line, 0, 0;
    }
  }

  class CompArgs {
    var circf: bool
    var nbra: nat

    constructor () {
      circf, nbra := false, 0;
    }
  }

  /** A pointer behind the code, NULL with an error reported, or a read past the end of the text. */
  datatype CompileResult = End(ep: nat) | Null | PastEnd

  ghost predicate SameElsewhere(now: seq<byte>, before: seq<byte>, from: nat, to: nat) {
    |now| == |before| && forall k :: 0 <= k < |now| && (k < from || k > to) ==> now[k] == before[k]
  }

  /** The bytes from ep on lay out the set placed. */
  ghost predicate Maps(buf: seq<byte>, ep: nat, size: nat, placed: set<byte>) {
    ep + size <= |buf| && forall k: nat :: k < size ==> buf[ep + k] == MapByte(placed, k)
  }

  method PlaceBit(buf: array<byte>, ep: nat, size: nat, c: byte, ghost placed: set<byte>)
    requires c / 8 < size && Maps(buf[..], ep, size, placed)
    modifies buf
    ensures Maps(buf[..], ep, size, placed + {c})
    ensures SameElsewhere(buf[..], old(buf[..]), ep, ep + size - 1)
  {
    PlaceAddsOne(placed, c);
    var k := ep + c / 8;
    buf[k] := Place(buf[k], c);
  }

  /** Bytes below 128 use only the first 16 bytes of a map. */
  lemma NarrowMap(placed: set<byte>, k: nat)
    requires forall c :: c in placed ==> c < 128
    requires k >= 16
    ensures MapByte(placed, k) == 0
  {
    PackFrame(placed, {}, 8 * k, 8);
    PackEmpty(8 * k, 8);
  }

  lemma {:induction false} PackEmpty(base: nat, n: nat)
    ensures Pack({}, base, n) == 0
    decreases n
  {
    if n > 0 {
      PackEmpty(base + 1, n - 1);
    }
  }

  /** Turn a 16-byte map into a 32-byte one. */
  method Widen(buf: array<byte>, ep: nat, endbuf: nat, ghost placed: set<byte>)
    requires 1 <= ep && ep + 32 < endbuf < buf.Length && Maps(buf[..], ep, 16, placed)
    requires forall c :: c in placed ==> c < 128
    modifies buf
    ensures Maps(buf[..], ep, 32, placed) && buf[ep - 1] == CXCL
    ensures SameElsewhere(buf[..], old(buf[..]), ep - 1, ep + 31)
  {
    buf[ep - 1] := CXCL;
    var i := 16;
    while i < 32
      invariant 16 <= i <= 32
      invariant Maps(buf[..], ep, i, placed) && buf[ep - 1] == CXCL
      invariant SameElsewhere(buf[..], old(buf[..]), ep - 1, ep + 31)
    {
      NarrowMap(placed, i);
      buf[ep + i] := 0;
      i := i + 1;
    }
  }

  /** `while (lc < c) { PLACE(lc); lc++; }` followed by `PLACE(c)` */
  method PlaceRange(buf: array<byte>, ep: nat, size: nat, lc0: byte, c: byte, ghost placed: set<byte>)
    requires ((size == 16 && c < 128) || size == 32) && Maps(buf[..], ep, size, placed)
    modifies buf
    ensures Maps(buf[..], ep, size, placed + RangeSet(lc0, c))
    ensures SameElsewhere(buf[..], old(buf[..]), ep, ep + size - 1)
  {
    var lc := lc0;
    ghost var now := placed;
    while lc < c
      invariant lc0 <= lc && (lc <= c || lc == lc0)
      invariant forall b :: b in now <==> b in placed || lc0 <= b < lc
      invariant Maps(buf[..], ep, size, now)
      invariant SameElsewhere(buf[..], old(buf[..]), ep, ep + size - 1)
    {
      PlaceBit(buf, ep, size, lc, now);
      now := now + {lc};
      lc := lc + 1;
    }
    PlaceBit(buf, ep, size, c, now);
    assert now + {c} == placed + RangeSet(lc0, c);
  }

  /** `[^` on a wide map: invert it, except for NUL. */
  method NegateWide(buf: array<byte>, ep: nat, ghost placed: set<byte>)
    requires 1 <= ep && ep + 32 <= buf.Length && Maps(buf[..], ep, 32, placed) && buf[ep - 1] == CXCL
    modifies buf
    ensures Maps(buf[..], ep, 32, MapBits(placed, true, true)) && buf[ep - 1] == CXCL
    ensures SameElsewhere(buf[..], old(buf[..]), ep, ep + 31)
  {
    ghost var was := buf[..];
    var cclcnt := 0;
    while cclcnt < 32
      invariant 0 <= cclcnt <= 32
      invariant forall j :: ep <= j < ep + cclcnt ==> buf[j] == Inverted(placed, j - ep)
      invariant forall j :: 0 <= j < buf.Length && !(ep <= j < ep + cclcnt) ==> buf[j] == was[j]
    {
      assert was[ep + cclcnt] == MapByte(placed, cclcnt);
      buf[ep + cclcnt] := 255 - buf[ep + cclcnt];
      cclcnt := cclcnt + 1;
    }
    buf[ep] := buf[ep] - buf[ep] % 2;
    InvertedMap(buf[..], ep, placed);
  }

  /** `[^` on a narrow map: another opcode, and a NUL bit that makes its test fail on NUL. */
  method NegateNarrow(buf: array<byte>, ep: nat, ghost placed: set<byte>)
    requires 1 <= ep && ep + 16 <= buf.Length && Maps(buf[..], ep, 16, placed)
    modifies buf
    ensures Maps(buf[..], ep, 16, MapBits(placed, false, true)) && buf[ep - 1] == NCCL
    ensures SameElsewhere(buf[..], old(buf[..]), ep - 1, ep + 15)
  {
    buf[ep - 1] := NCCL;
    PlaceBit(buf, ep, 16, 0, placed);
  }

  /** `ep[k] ^= 0377` */
  function Inverted(placed: set<byte>, k: nat): byte {
    255 - MapByte(placed, k)
  }

  lemma InvertedMap(buf: seq<byte>, ep: nat, placed: set<byte>)
    requires ep + 32 <= |buf| && buf[ep] == Inverted(placed, 0) - Inverted(placed, 0) % 2
    requires forall j :: ep < j < ep + 32 ==> buf[j] == Inverted(placed, j - ep)
    ensures Maps(buf, ep, 32, MapBits(placed, true, true))
  {
    var flipped := set b: byte | 0 <= b < 256 && b !in placed;
    assert flipped - {0} == MapBits(placed, true, true);
    forall k: nat | k < 32
      ensures buf[ep + k] == MapByte(flipped - {0}, k)
    {
      InvertedByte(flipped, placed, k);
      ClearNul(flipped, k);
      var j := ep + k;
      assert k > 0 ==> buf[j] == Inverted(placed, j - ep);
    }
  }

  lemma InvertedByte(s: set<byte>, t: set<byte>, k: nat)
    requires k < 32 && forall b: byte :: b in s <==> b !in t
    ensures MapByte(s, k) == Inverted(t, k)
  {
    PackComplement(s, t, 8 * k, 8);
    assert Pow2(8) == 256;
  }

  lemma ClearNul(s: set<byte>, k: nat)
    ensures MapByte(s - {0}, k) == MapByte(s, k) - (if k == 0 then MapByte(s, k) % 2 else 0)
  {
    if k == 0 {
      ClearLowest(s, 0, 8);
    } else {
      PackFrame(s, s - {0}, 8 * k, 8);
    }
  }

  lemma ClearLowest(s: set<byte>, base: byte, n: nat)
    requires n > 0
    ensures Pack(s - {base}, base, n) == Pack(s, base, n) - Pack(s, base, n) % 2
  {
    PackFrame(s, s - {base}, base + 1, n - 1);
  }

  lemma MapsAreCode(buf: seq<byte>, ep: nat, placed: set<byte>, wide: bool, neg: bool)
    requires 1 <= ep && Maps(buf, ep, MapSize(wide), MapBits(placed, wide, neg))
    requires buf[ep - 1] == Opcode(Cls(placed, wide, neg))
    ensures buf[ep - 1..ep + MapSize(wide)] == EncodeInstr(Item(Cls(placed, wide, neg), Once))
    ensures |EncodeInstr(Item(Cls(placed, wide, neg), Once))| == 1 + MapSize(wide)
  {
    var code := EncodeInstr(Item(Cls(placed, wide, neg), Once));
    assert |code| == 1 + MapSize(wide);
    forall k | 0 <= k < |code|
      ensures buf[ep - 1..ep + MapSize(wide)][k] == code[k]
    {
      if k > 0 {
        assert buf[ep + (k - 1)] == MapByte(MapBits(placed, wide, neg), k - 1);
      }
    }
  }

  /** The map at ep holds placed, in the width that placed needs. */
  ghost predicate ClassMap(buf: seq<byte>, ep: nat, endbuf: nat, wide: bool, placed: set<byte>) {
    && 1 <= ep && ep + MapSize(wide) < endbuf < |buf|
    && Maps(buf, ep, MapSize(wide), placed) && buf[ep - 1] == (if wide then CXCL else CCL)
    && 0 !in placed && (!wide ==> forall c :: c in placed ==> c < 128)
  }

  /** `if ((c & 0200) && iflag)`: a byte above 127 needs a wide map. */
  method WidenFor(c: byte, buf: array<byte>, ep: nat, endbuf: nat, wide: bool, ghost placed: set<byte>)
    returns (ok: bool, wide': bool)
    requires ClassMap(buf[..], ep, endbuf, wide, placed)
    modifies buf
    ensures ok <==> !(c >= 128 && !wide && ep + 32 >= endbuf)
    ensures ok ==> wide' == (wide || c >= 128) && ClassMap(buf[..], ep, endbuf, wide', placed)
    ensures SameElsewhere(buf[..], old(buf[..]), ep - 1, endbuf)
  {
    ok, wide' := true, wide;
    if c >= 128 && !wide {
      if ep + 32 >= endbuf {
        return false, wide;
      }
      Widen(buf, ep, endbuf, placed);
      wide' := true;
    }
  }

  /** One turn of the class loop: the character at i0, or the range it starts. */
  method ClassTurn(src: seq<byte>, i0: nat, lc0: byte, buf: array<byte>, ep: nat, endbuf: nat, wide0: bool,
                   placed0: set<byte>)
    returns (stop: Option<ClassScan>, i: nat, lc: byte, wide: bool, placed: set<byte>)
    requires NulFree(src) && i0 <= |src| && ClassMap(buf[..], ep, endbuf, wide0, placed0)
    modifies buf
    ensures stop.Some? ==> stop.value == ScanClass(src, i0, lc0, placed0, wide0, ep + 32 < endbuf)
    ensures stop.Some? && stop.value.ClassEnd? ==> ClassMap(buf[..], ep, endbuf, stop.value.wide, stop.value.placed)
    ensures stop.None? ==> i0 < i <= |src| && ClassMap(buf[..], ep, endbuf, wide, placed)
    ensures stop.None? ==> ScanClass(src, i0, lc0, placed0, wide0, ep + 32 < endbuf)
                           == if At(src, i) == RBRACKET then ClassEnd(placed, wide, i + 1)
                              else ScanClass(src, i, lc, placed, wide, ep + 32 < endbuf)
    ensures SameElsewhere(buf[..], old(buf[..]), ep - 1, endbuf)
  {
    stop, i, lc, wide, placed := None, i0, lc0, wide0, placed0;
    var c := At(src, i);
    i := i + 1;
    if c == 0 || c == NEWLINE {
      stop := Some(ClassError(49));
      return;
    }
    var ok;
    ok, wide := WidenFor(c, buf, ep, endbuf, wide, placed);
    if !ok {
      stop := Some(ClassError(50));
      return;
    }
    if c == MINUS && lc != 0 {
      c := At(src, i);
      i := i + 1;
      if c == RBRACKET {
        PlaceBit(buf, ep, MapSize(wide), MINUS, placed);
        placed := placed + {MINUS};
        stop := Some(ClassEnd(placed, wide, i));
        return;
      }
      ok, wide := WidenFor(c, buf, ep, endbuf, wide, placed);
      if !ok {
        stop := Some(ClassError(50));
        return;
      }
      if c == 0 {
        stop := Some(ClassOverrun);
        return;
      }
      PlaceRange(buf, ep, MapSize(wide), lc, c, placed);
      placed := placed + RangeSet(lc, c);
    } else {
      PlaceBit(buf, ep, MapSize(wide), c, placed);
      placed := placed + {c};
    }
    lc := c;
  }

  /**
   * The body of a bracket class from its first character at i0 on; ep is the map's first byte, behind the
   * opcode. On success the opcode and the map are those of the class, negated or not.
   */
  method CompileClass(src: seq<byte>, i0: nat, neg: bool, buf: array<byte>, ep: nat, endbuf: nat)
    returns (scan: ClassScan)
    requires NulFree(src) && i0 <= |src|
    requires 1 <= ep && ep + 16 < endbuf < buf.Length && buf[ep - 1] == CCL
    modifies buf
    ensures scan == ScanClass(src, i0, 0, {}, false, ep + 32 < endbuf)
    ensures scan.ClassEnd? ==>
              var code := EncodeInstr(Item(Cls(scan.placed, scan.wide, neg), Once));
              ep - 1 + |code| < endbuf && buf[ep - 1..ep - 1 + |code|] == code
    ensures SameElsewhere(buf[..], old(buf[..]), ep - 1, endbuf)
  {
    hide ScanClass, EncodeInstr, Pack;
    var k := 0;
    while k < 16
      invariant 0 <= k <= 16 && Maps(buf[..], ep, k, {}) && buf[ep - 1] == CCL
      invariant SameElsewhere(buf[..], old(buf[..]), ep - 1, endbuf)
    {
      PackEmpty(8 * k, 8);
      buf[ep + k] := 0;
      k := k + 1;
    }
    var i, lc: byte := i0, 0;
    var wide, placed: set<byte> := false, {};
    while true
      invariant i <= |src| && ClassMap(buf[..], ep, endbuf, wide, placed)
      invariant ScanClass(src, i, lc, placed, wide, ep + 32 < endbuf)
                == ScanClass(src, i0, 0, {}, false, ep + 32 < endbuf)
      invariant SameElsewhere(buf[..], old(buf[..]), ep - 1, endbuf)
      decreases |src| - i
    {
      var stop;
      stop, i, lc, wide, placed := ClassTurn(src, i, lc, buf, ep, endbuf, wide, placed);
      if stop.Some? {
        scan := stop.value;
        break;
      }
      if At(src, i) == RBRACKET {
        scan := ClassEnd(placed, wide, i + 1);
        break;
      }
    }
    if scan.ClassEnd? {
      FinishClass(neg, buf, ep, endbuf, scan.wide, scan.placed);
    }
  }

  method FinishClass(neg: bool, buf: array<byte>, ep: nat, endbuf: nat, wide: bool, ghost placed: set<byte>)
    requires ClassMap(buf[..], ep, endbuf, wide, placed)
    modifies buf
    ensures var code := EncodeInstr(Item(Cls(placed, wide, neg), Once));
            ep - 1 + |code| < endbuf && buf[ep - 1..ep - 1 + |code|] == code
    ensures SameElsewhere(buf[..], old(buf[..]), ep - 1, endbuf)
  {
    if neg {
      if wide {
        NegateWide(buf, ep, placed);
      } else {
        NegateNarrow(buf, ep, placed);
      }
    }
    MapsAreCode(buf[..], ep, placed, wide, neg);
    assert buf[..][ep - 1..ep + MapSize(wide)] == buf[ep - 1..ep + MapSize(wide)];
  }

  // ----- intervals -----

  /** The digits at i0 and the character that ends them. */
  method ReadNumber(src: seq<byte>, i0: nat) returns (scan: NumScan)
    requires NulFree(src) && i0 <= |src|
    ensures scan == ScanNumber(src, i0, 0)
  {
    var i, value := i0, 0;
    while true
      invariant i <= |src| && value >= 0 && ScanNumber(src, i, value) == ScanNumber(src, i0, 0)
      decreases |src| - i
    {
      var c := At(src, i);
      if !IsDigit(c) {
        return NumError;
      }
      value := 10 * value + (c - ZERO);
      i := i + 1;
      c := At(src, i);
      if c == BACKSLASH || c == COMMA {
        return NumEnd(value, c, i + 1);
      }
    }
  }

  /** `\{`: one or two numbers are stored at ep and ep + 1. */
  method CompileInterval(src: seq<byte>, i0: nat, buf: array<byte>, ep: nat) returns (scan: IntervalScan)
    requires NulFree(src) && i0 <= |src| && ep + 1 < buf.Length
    modifies buf
    ensures scan == ScanInterval(src, i0)
    ensures scan.Interval? ==> buf[ep] == scan.lo && buf[ep + 1] == scan.hi
    ensures SameElsewhere(buf[..], old(buf[..]), ep, ep + 1)
  {
    var first := ReadNumber(src, i0);
    if first.NumError? {
      return IntervalError(16);
    }
    if first.value >= 255 {
      return IntervalError(11);
    }
    buf[ep] := first.value;
    var i := first.sp;
    if first.stop == COMMA {
      if At(src, i) == BACKSLASH {
        buf[ep + 1] := OPEN_ENDED;
        i := i + 1;
      } else {
        var second := ReadNumber(src, i);
        if second.NumError? {
          return IntervalError(16);
        }
        if second.value >= 255 {
          return IntervalError(11);
        }
        buf[ep + 1] := second.value;
        i := second.sp;
        if second.stop == COMMA {
          return IntervalError(44);
        }
      }
      if At(src, i) != RBRACE {
        return IntervalError(45);
      }
      if buf[ep + 1] < buf[ep] {
        return IntervalError(46);
      }
    } else {
      if At(src, i) != RBRACE {
        return IntervalError(45);
      }
      buf[ep + 1] := first.value;
    }
    scan := Interval(buf[ep], buf[ep + 1], i + 1);
  }

  // ----- the main loop -----

  /** The bytes up to endbuf; none when the space before has been used up. */
  function Room(ep: nat, endbuf: nat): nat {
    if ep <= endbuf then endbuf - ep else 0
  }

  /** sed_compile's local variables. st is the state they stand for, goal what the whole text compiles to. */
  class Registers {
    const src: seq<byte>
    const eof: int
    const buf: array<byte>
    const start: nat
    const endbuf: nat
    var sp: nat
    var ep: nat
    var lastep: Option<nat>
    var bracket: seq<byte>
    var nbra: nat
    var closed: nat
    var regerrno: nat
    ghost var st: CompState

    constructor (src: seq<byte>, sp: nat, eof: int, buf: array<byte>, ep: nat, endbuf: nat)
      requires NulFree(src) && sp <= |src| && ep <= endbuf + 1 <= buf.Length
      ensures Valid() && fresh(this)
      ensures this.src == src && this.sp == sp && this.eof == eof && this.buf == buf && start == this.ep == ep
      ensures this.endbuf == endbuf
      ensures st == START_STATE && regerrno == 0
    {
      this.src, this.sp, this.eof, this.buf, this.start, this.ep, this.endbuf := src, sp, eof, buf, ep, ep, endbuf;
      lastep, bracket, nbra, closed, regerrno := None, [], 0, 0, 0;
      st := START_STATE;
    }

    ghost predicate Valid()
      reads this, buf
    {
      && NulFree(src) && sp <= |src| && start <= ep <= endbuf + 1 <= buf.Length
      && st.Valid() && st.code == buf[start..ep]
      && (lastep.Some? <==> st.lastep.Some?) && (lastep.Some? ==> lastep.value == start + st.lastep.value)
      && st.bracket == bracket && st.nbra == nbra && st.closed == closed
    }

    ghost function Rest(): Compiled
      requires Valid()
      reads this, buf
    {
      CompileFrom(src, sp, eof, Room(start, endbuf), st)
    }

    /** What a turn of the loop does: it stops with the outcome goal stands for, or goes on towards it. */
    ghost predicate Turned(stop: Option<CompileResult>, goal: Compiled)
      reads this, buf
    {
      if stop.None? then Valid() && Rest() == goal
      else match goal
        case Done(code, end, groups) =>
          stop.value == End(start + |code|) && start + |code| <= endbuf + 1 && start + |code| <= buf.Length
          && buf[start..start + |code|] == code && sp == end && nbra == groups
        case NoPattern(_) => false
        case Failed(err) => stop.value == Null && regerrno == err
        case Overrun => stop.value == PastEnd
    }

    /** The n bytes stored at ep become the code of the latest atom. */
    method Keep(n: nat, ghost bytes: seq<byte>)
      requires Valid() && bytes != [] && n == |bytes| && ep + n <= endbuf + 1 && buf[ep..ep + n] == bytes
      modifies this`ep, this`lastep, this`st
      ensures Valid() && st == old(st).Emit(bytes) && ep == old(ep) + n
    {
      assert buf[start..ep + n] == buf[start..ep] + bytes;
      lastep := Some(ep);
      ep := ep + n;
      st := st.Emit(bytes);
    }

    /** `*ep++ = ...` for each of the bytes. */
    method Store(bytes: seq<byte>)
      requires Valid() && 1 <= |bytes| <= 2 && ep < endbuf
      modifies this`ep, this`lastep, this`st, buf
      ensures Valid() && st == old(st).Emit(bytes)
      ensures SameElsewhere(buf[..], old(buf[..]), start, endbuf)
    {
      ghost var before := buf[..];
      buf[ep] := bytes[0];
      if |bytes| == 2 {
        buf[ep + 1] := bytes[1];
      }
      assert buf[start..ep] == before[start..ep];
      Keep(|bytes|, bytes);
    }

    /** `*lastep |= ...` */
    method Quantify(bits: byte)
      requires Valid() && lastep.Some? && (bits == STAR || bits == RNGE)
      modifies this`st, buf
      ensures Valid()
      ensures var k := old(st.lastep.value); var b := old(st).code[k];
              st == old(st).(code := old(st).code[k := if bits == STAR then OrStar(b) else OrRange(b)])
      ensures SameElsewhere(buf[..], old(buf[..]), start, endbuf)
    {
      var k := lastep.value;
      ghost var before := buf[..];
      buf[k] := if bits == STAR then OrStar(buf[k]) else OrRange(buf[k]);
      assert buf[start..ep] == before[start..ep][k - start := buf[k]];
      st := st.(code := buf[start..ep]);
    }

    method Bracket() returns (stop: Option<CompileResult>)
      requires Valid() && ep < endbuf && At(src, sp) == LBRACKET && LBRACKET as int != eof
      modifies this`sp, this`ep, this`lastep, this`regerrno, this`st, buf
      ensures Turned(stop, old(Rest())) && (stop.None? ==> sp > old(sp))
      ensures SameElsewhere(buf[..], old(buf[..]), start, endbuf)
    {
      assert Rest() == CompileBracket(src, sp, eof, endbuf - start, st);
      if ep + 17 >= endbuf {
        regerrno := 50;
        return Some(Null);
      }
      var neg := At(src, sp + 1) == CARET;
      var scan := StoreClass(if neg then sp + 2 else sp + 1, neg);
      match scan
      case ClassError(err) =>
        regerrno := err;
        stop := Some(Null);
      case ClassOverrun =>
        stop := Some(PastEnd);
      case ClassEnd(_, _, j) =>
        sp := j;
        stop := None;
    }

    method StoreClass(i: nat, neg: bool) returns (scan: ClassScan)
      requires Valid() && i <= |src| && ep + 17 < endbuf
      modifies this`ep, this`lastep, this`st, buf
      ensures scan == ScanClass(src, i, 0, {}, false, |old(st.code)| + 33 < endbuf - start)
      ensures scan.ClassEnd? ==>
                Valid() && st == old(st).Emit(EncodeInstr(Item(Cls(scan.placed, scan.wide, neg), Once)))
      ensures SameElsewhere(buf[..], old(buf[..]), start, endbuf)
    {
      hide ScanClass, EncodeInstr;
      ghost var before := buf[..];
      buf[ep] := CCL;
      scan := CompileClass(src, i, neg, buf, ep + 1, endbuf);
      if scan.ClassEnd? {
        MapSizeOfCode(scan.placed, scan.wide, neg);
        assert buf[start..ep] == before[start..ep];
        Keep(1 + MapSize(scan.wide), EncodeInstr(Item(Cls(scan.placed, scan.wide, neg), Once)));
      }
    }

    method Escape() returns (stop: Option<CompileResult>)
      requires Valid() && ep < endbuf && At(src, sp) == BACKSLASH && BACKSLASH as int != eof
      modifies this`sp, this`ep, this`lastep, this`bracket, this`nbra, this`closed, this`regerrno, this`st, buf
      ensures Turned(stop, old(Rest())) && (stop.None? ==> sp > old(sp))
      ensures SameElsewhere(buf[..], old(buf[..]), start, endbuf)
    {
      stop := None;
      assert Rest() == CompileEscape(src, sp, eof, endbuf - start, st);
      var c := At(src, sp + 1);
      if c == LPAREN || c == RPAREN {
        stop := Paren();
        return;
      } else if c == LBRACE && lastep.Some? {
        stop := Brace();
        return;
      } else if c == NEWLINE {
        regerrno := 36;
        return Some(Null);
      } else if ONE <= c <= NINE {
        if c - ONE >= closed {
          regerrno := 25;
          return Some(Null);
        }
        Store([CBACK, c - ONE]);
      } else if c == 0 {
        return Some(PastEnd);
      } else {
        Store([CCHR, if c == LETTER_N then NEWLINE else c]);
      }
      sp := sp + 2;
    }

    method Paren() returns (stop: Option<CompileResult>)
      requires Valid() && ep < endbuf && At(src, sp) == BACKSLASH && BACKSLASH as int != eof
      requires At(src, sp + 1) == LPAREN || At(src, sp + 1) == RPAREN
      modifies this`sp, this`ep, this`lastep, this`bracket, this`nbra, this`closed, this`regerrno, this`st, buf
      ensures Turned(stop, old(Rest())) && (stop.None? ==> sp > old(sp))
      ensures SameElsewhere(buf[..], old(buf[..]), start, endbuf)
    {
      stop := None;
      assert Rest() == CompileEscape(src, sp, eof, endbuf - start, st);
      if At(src, sp + 1) == LPAREN {
        if nbra >= NBRA {
          regerrno := 43;
          return Some(Null);
        }
        Store([CBRA, nbra]);
        bracket := bracket + [nbra];
        nbra := nbra + 1;
        st := st.(bracket := bracket, nbra := nbra);
      } else {
        if bracket == [] {
          regerrno := 42;
          return Some(Null);
        }
        var top := bracket[|bracket| - 1];
        Store([CKET, top]);
        bracket := bracket[..|bracket| - 1];
        closed := closed + 1;
        st := st.(bracket := bracket, closed := closed);
      }
      sp := sp + 2;
    }

    method Brace() returns (stop: Option<CompileResult>)
      requires Valid() && ep < endbuf && sp + 2 <= |src| && lastep.Some?
      modifies this`sp, this`ep, this`regerrno, this`st, buf
      ensures Turned(stop, CompileBrace(src, old(sp), eof, endbuf - start, old(st))) && (stop.None? ==> sp > old(sp))
      ensures SameElsewhere(buf[..], old(buf[..]), start, endbuf)
    {
      hide ScanInterval, CompileFrom, OrRange;
      Quantify(RNGE);
      ghost var before := buf[..];
      var scan := CompileInterval(src, sp + 2, buf, ep);
      match scan
      case IntervalError(err) =>
        regerrno := err;
        stop := Some(Null);
      case Interval(lo, hi, j) =>
        assert buf[start..ep + 2] == before[start..ep] + [lo, hi];
        st := st.(code := st.code + [lo, hi]);
        ep := ep + 2;
        sp := j;
        stop := None;
    }

    /** One turn of `while (1)`. */
    method Turn() returns (stop: Option<CompileResult>)
      requires Valid()
      modifies this`sp, this`ep, this`lastep, this`bracket, this`nbra, this`closed, this`regerrno, this`st, buf
      ensures Turned(stop, old(Rest())) && (stop.None? ==> sp > old(sp))
      ensures SameElsewhere(buf[..], old(buf[..]), start, endbuf)
    {
      hide CompileBracket, CompileEscape, CompileBrace, EncodeInstr;
      stop := None;
      if ep >= endbuf {
        regerrno := 50;
        return Some(Null);
      }
      var c := At(src, sp);
      if c == eof {
        if bracket != [] {
          regerrno := 42;
          return Some(Null);
        }
        Store([CCEOF]);
        sp := sp + 1;
        return Some(End(ep));
      } else if c == 0 {
        return Some(PastEnd);
      } else if c == NEWLINE {
        regerrno := 36;
        return Some(Null);
      } else if c == LBRACKET {
        stop := Bracket();
        return;
      } else if c == BACKSLASH {
        stop := Escape();
        return;
      }
      Ordinary();
    }

    /** A character that stands for itself, for any character, for the end of the line, or repeats what is before it. */
    method Ordinary()
      requires Valid() && ep < endbuf
      requires var c := At(src, sp); c != eof && c != 0 && c != NEWLINE && c != LBRACKET && c != BACKSLASH
      modifies this`sp, this`ep, this`lastep, this`st, buf
      ensures Turned(None, old(Rest())) && sp > old(sp)
      ensures SameElsewhere(buf[..], old(buf[..]), start, endbuf)
    {
      hide CompileBracket, CompileEscape, CompileBrace, EncodeInstr;
      var c := At(src, sp);
      if c == ASTERISK && lastep.Some? && buf[lastep.value] != CBRA && buf[lastep.value] != CKET {
        Quantify(STAR);
      } else if c == DOT {
        Store([CDOT]);
      } else if c == DOLLAR && (At(src, sp + 1) == eof || At(src, sp + 1) == NEWLINE) {
        Store([CDOL]);
      } else {
        Store([CCHR, c]);
      }
      sp := sp + 1;
    }
  }

  lemma MapSizeOfCode(placed: set<byte>, wide: bool, neg: bool)
    ensures |EncodeInstr(Item(Cls(placed, wide, neg), Once))| == 1 + MapSize(wide)
  {
  }

  /**
   * `sed_compile`: compile the pattern at commands.cp into buf from ep on, up to endbuf inclusive, which ep may be
   * behind already. What it stores and reports is what Compile says of the text; nothing outside ep..endbuf is written.
   */
  method SedCompile(commands: Commands, compargs: CompArgs, buf: array<byte>, ep: nat, endbuf: nat, seof: int)
    returns (r: CompileResult)
    requires NulFree(commands.linebuf) && commands.cp <= |commands.linebuf|
    requires ep <= endbuf + 1 <= buf.Length
    modifies commands, compargs, buf
    ensures SameElsewhere(buf[..], old(buf[..]), ep, endbuf)
    ensures match Compile(commands.linebuf, old(commands.cp), seof, Room(ep, endbuf))
            case Done(code, sp, nbra) =>
              && r == End(ep + |code|) && ep + |code| <= endbuf + 1 && buf[ep..ep + |code|] == code
              && commands.cp == sp && compargs.nbra == nbra
              && compargs.circf == StartsAnchored(commands.linebuf, old(commands.cp))
            case NoPattern(sp) => r == End(ep) && commands.cp == sp
            case Failed(err) => r == Null && commands.regerr == err && commands.cp == old(commands.cp)
            case Overrun => r == PastEnd && commands.cp == old(commands.cp)
  {
    var src, sp: nat := commands.linebuf, commands.cp;
    var c := At(src, sp);
    if c == seof || c == NEWLINE {
      commands.cp := if c == seof then sp + 1 else sp;
      return End(ep);
    }
    var circf := c == CARET;
    if circf {
      sp := sp + 1;
    }
    var regs := new Registers(src, sp, seof, buf, ep, endbuf);
    ghost var goal := Compile(src, commands.cp, seof, Room(ep, endbuf));
    var stop: Option<CompileResult> := None;
    while stop.None?
      invariant regs.src == src && regs.buf == buf && regs.start == ep && regs.endbuf == endbuf && regs.eof == seof
      invariant regs.Turned(stop, goal)
      invariant SameElsewhere(buf[..], old(buf[..]), ep, endbuf)
      invariant commands.cp == old(commands.cp)
      decreases stop.None?, |src| - regs.sp
    {
      stop := regs.Turn();
    }
    r := stop.value;
    match r
    case End(_) =>
      commands.cp := regs.sp;
      compargs.circf, compargs.nbra := circf, regs.nbra;
    case Null =>
      commands.regerr := regs.regerrno;
    case PastEnd =>
  }
}
