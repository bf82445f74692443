/** The output side of the filter: bytes written by the evaluator, on their way into buckets and downstream. */
module OutputFilter {
  import opened Bytes

  /** MODSED_OUTBUF_SIZE and MAX_TRANSIENT_BUCKETS */
  const OUTBUF_SIZE: nat := 8000
  const MAX_BUCKETS: nat := 50

  /** A bucket refers to memory, it does not hold a copy. */
  datatype Bucket = Data(data: array<byte>, size: nat) | Flush

  /** The memory the buckets of a brigade refer to. */
  ghost function Memory(bb: seq<Bucket>): set<array<byte>> {
    set k | 0 <= k < |bb| && bb[k].Data? :: bb[k].data
  }

  lemma MemorySnoc(bb: seq<Bucket>, b: Bucket)
    ensures Memory(bb + [b]) == Memory(bb) + if b.Data? then {b.data} else {}
  {
    assert (bb + [b])[|bb|] == b;
    forall k | 0 <= k < |bb|
      ensures (bb + [b])[k] == bb[k]
    {
    }
    forall a | a in Memory(bb)
      ensures a in Memory(bb + [b])
    {
      var k :| 0 <= k < |bb| && bb[k].Data? && bb[k].data == a;
      assert (bb + [b])[k].data == a;
    }
  }

  ghost predicate WellSized(bb: seq<Bucket>) {
    forall k :: 0 <= k < |bb| && bb[k].Data? ==> bb[k].size <= bb[k].data.Length
  }

  /** The bytes of a brigade, as they are when it is read. */
  ghost function Content(bb: seq<Bucket>): seq<byte>
    requires WellSized(bb)
    reads Memory(bb)
  {
    if bb == [] then []
    else
      var b := bb[|bb| - 1];
      Content(bb[..|bb| - 1]) + if b.Data? then b.data[..b.size] else []
  }

  ghost function DataBuckets(bb: seq<Bucket>): nat {
    if bb == [] then 0 else DataBuckets(bb[..|bb| - 1]) + if bb[|bb| - 1].Data? then 1 else 0
  }

  /** `sed_filter_ctxt` */
  class Context {
    const transient: bool
    var outbuf: array?<byte>
    var curoutbuf: nat
    var numbuckets: nat
    var bb: seq<Bucket>

    /** What has been passed to the next filter. */
    var passed: seq<byte>

    /** What the evaluator has written, and the memory allocated from the pool since it was last cleared. */
    ghost var written: seq<byte>
    ghost var live: set<array<byte>>

    ghost function Filled(): seq<byte>
      requires outbuf != null ==> curoutbuf <= outbuf.Length
      reads this, if outbuf == null then {} else {outbuf}
    {
      if outbuf == null then [] else outbuf[..curoutbuf]
    }

    /** Buckets refer to memory that has not been given back. */
    ghost predicate Held()
      reads this
    {
      Memory(bb) <= live && WellSized(bb)
    }

    /** Buckets refer to live memory, and not to the buffer that is being filled. */
    ghost predicate Separate()
      reads this
    {
      && Held()
      && (outbuf != null ==>
            outbuf in live && outbuf !in Memory(bb) && outbuf.Length == OUTBUF_SIZE + 1 && curoutbuf <= OUTBUF_SIZE)
    }

    /** Everything on its way: passed on, in buckets, and still in the buffer. */
    ghost function Total(): seq<byte>
      requires Separate()
      reads this, live
    {
      passed + Content(bb) + Filled()
    }

    ghost predicate Counted()
      reads this
    {
      if transient then numbuckets == DataBuckets(bb) < MAX_BUCKETS else numbuckets == 0
    }

    /** Between calls. */
    ghost predicate Valid()
      reads this, live
    {
      Separate() && Total() == written && Counted() && (outbuf != null ==> curoutbuf < OUTBUF_SIZE)
    }

    /** `init_context`: with its own pool for transient buckets, or with the request's. */
    constructor (usetpool: bool)
      ensures Valid() && written == [] && passed == [] && transient == usetpool && fresh(live)
    {
      transient := usetpool;
      var first := new byte[OUTBUF_SIZE + 1];
      outbuf, curoutbuf, numbuckets, bb, passed := first, 0, 0, [], [];
      written, live := [], {first};
    }

    /** `apr_palloc` from the context's pool */
    method Palloc(n: nat) returns (a: array<byte>)
      modifies this`live
      ensures fresh(a) && a.Length == n && live == old(live) + {a}
    {
      a := new byte[n];
      live := live + {a};
    }

    /** `clear_ctxpool`, when no bucket is pending. */
    method ClearPool()
      requires bb == []
      modifies this`outbuf, this`curoutbuf, this`numbuckets, this`live
      ensures outbuf == null && curoutbuf == 0 && numbuckets == 0 && live == {}
    {
      outbuf, curoutbuf, numbuckets := null, 0, 0;
      live := {};
    }

    /** `alloc_outbuf` */
    method AllocOutbuf()
      modifies this`outbuf, this`curoutbuf, this`live
      ensures outbuf != null && fresh(outbuf) && outbuf.Length == OUTBUF_SIZE + 1 && curoutbuf == 0
      ensures live == old(live) + {outbuf}
    {
      outbuf := Palloc(OUTBUF_SIZE + 1);
      curoutbuf := 0;
    }

    /**
     * `ap_pass_brigade` and `apr_brigade_cleanup`: the next filter reads the buckets and keeps none of their memory.
     */
    method PassBrigade()
      requires Held()
      modifies this`passed, this`bb
      ensures passed == old(passed) + old(Content(bb)) && bb == []
    {
      var k := 0;
      ghost var before := passed;
      while k < |bb|
        invariant k <= |bb| && WellSized(bb[..k]) && Memory(bb[..k]) <= live && bb == old(bb)
        invariant passed == before + Content(bb[..k])
      {
        assert bb[..k + 1][..k] == bb[..k];
        if bb[k].Data? {
          passed := passed + bb[k].data[..bb[k].size];
        }
        k := k + 1;
      }
      assert bb[..k] == bb;
      bb := [];
    }

    /** `append_bucket`, when the next filter accepts what it is given. */
    method AppendBucket(buf: array<byte>, size: nat)
      requires Held() && Counted() && buf in live && size <= buf.Length
      modifies this`bb, this`passed, this`outbuf, this`curoutbuf, this`numbuckets, this`live
      ensures Held() && Counted()
      ensures passed + Content(bb) == old(passed + Content(bb)) + buf[..size]
      ensures if transient && old(numbuckets) == MAX_BUCKETS - 1
              then outbuf == null && curoutbuf == 0 && live == {} && bb == []
              else
                && outbuf == old(outbuf) && curoutbuf == old(curoutbuf) && live == old(live)
                && bb == old(bb) + [Data(buf, size)]
    {
      InsertTail(Data(buf, size));
      if transient {
        numbuckets := numbuckets + 1;
        if numbuckets >= MAX_BUCKETS {
          InsertTail(Flush);
          PassBrigade();
          ClearPool();
          assert Content(bb) == [];
        }
      }
    }

    /** `APR_BRIGADE_INSERT_TAIL` */
    method InsertTail(b: Bucket)
      requires Held() && (b.Data? ==> b.data in live && b.size <= b.data.Length)
      modifies this`bb
      ensures bb == old(bb) + [b] && Held()
      ensures passed + Content(bb) == old(passed + Content(bb)) + if b.Data? then b.data[..b.size] else []
      ensures DataBuckets(bb) == old(DataBuckets(bb)) + if b.Data? then 1 else 0
    {
      bb := bb + [b];
      assert bb[..|bb| - 1] == old(bb);
    }

    /** `memcpy` to where the buffer is filled next. */
    method Fill(buf: seq<byte>)
      requires Separate() && outbuf != null && curoutbuf + |buf| <= OUTBUF_SIZE
      modifies this`curoutbuf, outbuf
      ensures Separate() && curoutbuf == old(curoutbuf) + |buf|
      ensures Total() == old(Total()) + buf
    {
      var k := 0;
      while k < |buf|
        invariant k <= |buf| && curoutbuf + |buf| <= OUTBUF_SIZE && Separate()
        invariant outbuf[..curoutbuf + k] == old(outbuf[..curoutbuf]) + buf[..k]
        invariant Content(bb) == old(Content(bb))
      {
        outbuf[curoutbuf + k] := buf[k];
        k := k + 1;
      }
      assert buf[..k] == buf;
      curoutbuf := curoutbuf + |buf|;
      assert Filled() == old(Filled()) + buf;
    }

    /** A copy of the filled part, in memory of its own. */
    method CopyOut() returns (out: array<byte>)
      requires Separate() && outbuf != null
      modifies this`live
      ensures Separate() && fresh(out) && out.Length == curoutbuf && out[..] == Filled() == old(Filled())
      ensures live == old(live) + {out} && Content(bb) == old(Content(bb))
    {
      out := Palloc(curoutbuf);
      var k := 0;
      while k < curoutbuf
        invariant k <= curoutbuf && out[..k] == outbuf[..k] && live == old(live) + {out}
        invariant Content(bb) == old(Content(bb)) && Filled() == old(Filled())
      {
        out[k] := outbuf[k];
        k := k + 1;
      }
    }

    /** `flush_output_buffer`: the filled part is copied into a bucket of its own, and the buffer filled anew. */
    method FlushOutputBuffer()
      requires Valid()
      modifies this
      ensures Valid() && written == old(written) && Filled() == []
    {
      hide Content, DataBuckets, Memory, WellSized;
      if outbuf == null || curoutbuf == 0 {
        return;
      }
      var out := CopyOut();
      ghost var before, size, sent := bb, curoutbuf, passed + Content(bb);
      assert sent + out[..size] == written;
      AppendBucket(out, curoutbuf);
      curoutbuf := 0;
      KeepsApart(before, out, size);
      assert Filled() == [] && passed + Content(bb) == written;
    }

    /** A bucket made of memory other than the buffer keeps the buffer apart. */
    lemma KeepsApart(before: seq<Bucket>, a: array<byte>, size: nat)
      requires outbuf == null || (outbuf !in Memory(before) && outbuf != a)
      ensures outbuf == null || outbuf !in Memory(before + [Data(a, size)])
    {
      MemorySnoc(before, Data(a, size));
    }

    /** The buffer is full: it becomes a bucket, and a new one takes its place. */
    method ReplaceBuffer()
      requires Separate() && Counted() && outbuf != null && curoutbuf == OUTBUF_SIZE
      modifies this`bb, this`passed, this`outbuf, this`curoutbuf, this`numbuckets, this`live
      ensures Separate() && Counted() && outbuf != null && curoutbuf == 0 && Total() == old(Total()) && fresh(outbuf)
    {
      hide Content, DataBuckets, Memory, WellSized;
      ghost var total := Total();
      AppendBucket(outbuf, OUTBUF_SIZE);
      AllocOutbuf();
      assert Filled() == [] && passed + Content(bb) == total;
    }

    /** Text of at least a buffer's size goes into a bucket of its own. */
    method AddDirectly(buf: seq<byte>)
      requires Separate() && Counted() && outbuf != null && curoutbuf == 0
      modifies this`bb, this`passed, this`outbuf, this`curoutbuf, this`numbuckets, this`live
      ensures Separate() && Counted() && outbuf != null && curoutbuf == 0 && Total() == old(Total()) + buf
    {
      hide Content, DataBuckets, Memory, WellSized;
      ghost var before, sent := bb, passed + Content(bb);
      assert Filled() == [] && Total() == sent;
      var newbuf := CopyText(buf);
      AppendBucket(newbuf, |buf|);
      assert passed + Content(bb) == sent + buf;
      KeepsApart(before, newbuf, |buf|);
      if outbuf == null {
        AllocOutbuf();
      }
      assert Filled() == [];
    }

    /** A copy of a text, in memory of its own. */
    method CopyText(text: seq<byte>) returns (a: array<byte>)
      requires Separate()
      modifies this`live
      ensures Separate() && fresh(a) && a[..] == text && live == old(live) + {a}
      ensures Content(bb) == old(Content(bb)) && Filled() == old(Filled())
    {
      a := Palloc(|text|);
      var k := 0;
      while k < |text|
        invariant k <= |text| && a[..k] == text[..k] && live == old(live) + {a}
        invariant Content(bb) == old(Content(bb)) && Filled() == old(Filled())
      {
        a[k] := text[k];
        k := k + 1;
      }
    }

    /** Text that does not fit: the buffer is filled up and replaced before the rest of it is taken in. */
    method Overflow(buf: seq<byte>)
      requires Separate() && Counted() && outbuf != null && curoutbuf < OUTBUF_SIZE && |buf| >= OUTBUF_SIZE - curoutbuf
      modifies this`bb, this`passed, this`outbuf, this`curoutbuf, this`numbuckets, this`live, outbuf
      ensures Separate() && Counted() && outbuf != null && curoutbuf < OUTBUF_SIZE && Total() == old(Total()) + buf
    {
      hide Content, DataBuckets, Memory, WellSized, Total;
      var remainbytes := OUTBUF_SIZE - curoutbuf;
      var rest := buf[remainbytes..];
      ghost var total := Total();
      Fill(buf[..remainbytes]);
      ReplaceBuffer();
      if |rest| >= OUTBUF_SIZE {
        AddDirectly(rest);
      } else {
        Fill(rest);
      }
      assert total + buf[..remainbytes] + rest == total + buf;
    }

    /** `sed_write_output` */
    method WriteOutput(buf: seq<byte>)
      requires Valid()
      modifies this, if outbuf == null then {} else {outbuf}
      ensures Valid() && written == old(written) + buf
    {
      hide Content, DataBuckets, Memory, WellSized;
      if outbuf == null {
        AllocOutbuf();
        assert Filled() == [] && Total() == written;
      }
      if |buf| >= OUTBUF_SIZE - curoutbuf {
        Overflow(buf);
      } else {
        Fill(buf);
      }
      written := written + buf;
    }

    /** A flush bucket arrives: what is in the buffer goes ahead of it. */
    method InsertFlush()
      requires Valid()
      modifies this
      ensures Valid() && written == old(written) && Filled() == []
    {
      FlushOutputBuffer();
      ghost var before := bb;
      InsertTail(Flush);
      MemorySnoc(before, Flush);
    }

    /** The end of `sed_response_filter`: all that has been written has been passed on, and the pool is empty. */
    method EndCall()
      requires Valid()
      modifies this
      ensures Valid() && written == old(written) && passed == written && bb == [] && live == {} && numbuckets == 0
    {
      FlushOutputBuffer();
      if bb != [] {
        PassBrigade();
      }
      ClearPool();
      assert Content(bb) == [] && Filled() == [];
    }
  }
}
