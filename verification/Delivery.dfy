/**
 Feeding the records of one observation to the reassembler: the complete stream yields exactly the
 event in the URB's buffer, a truncated stream yields nothing and is never an error.
 */
module Delivery {
  import opened Bytes
  import opened Records
  import opened Reassembly
  import opened Transport
  import opened Emission
  import Rel = Release

  /** `b` is `a` with the bytes of [lo, hi) added, all bytes agreeing with `f`. */
  ghost predicate Filled(a: Assembly, b: Assembly, f: seq<u8>, lo: nat, hi: nat) {
    && b.meta == a.meta && b.iso == a.iso && b.copied == a.copied + hi - lo
    && (forall x :: x in b.content <==> x in a.content || lo <= x < hi)
    && (forall x :: x in b.content ==> x < |f| && b.content[x] == f[x])
  }

  /** One chunk of memory that agrees with `f` is accepted, whatever body records follow. */
  lemma ChunkExtends(a: Assembly, f: seq<u8>, memory: Memory, id: u64, offset: u32, source: u64, n: nat,
          rest: seq<Record>)
    returns (c: Assembly)
    requires 0 < n && offset + n <= a.meta.payloadLen
    requires forall x :: x in a.content ==> x < |f| && a.content[x] == f[x]
    requires offset + n <= |f| && forall x :: offset <= x < offset + n ==> f[x] == memory(Address(source, x - offset))
    requires IsoTransfer(a.meta) || forall x :: x in a.content ==> x < offset
    requires AllBody(rest, id)
    ensures AllBody([DataRecord(memory, id, offset, source, n)] + rest, id)
    ensures Assemble(a, [DataRecord(memory, id, offset, source, n)] + rest) == Assemble(c, rest)
    ensures Filled(a, c, f, offset, offset + n)
  {
    var r := DataRecord(memory, id, offset, source, n);
    forall x: nat | offset <= x < offset + n
      ensures ByteAt(offset, r.body, x) == f[x]
    {
    }
    assert !Clash(a, offset, r.body);
    c := a.(content := a.content + Fragment(offset, r.body), copied := a.copied + n);
    ConsAssembles(a, r, c, rest, id);
  }

  lemma {:induction false} ChunksAllBody(memory: Memory, id: u64, dest: u32, source: u64, total: u32, from: nat)
    requires from <= total
    ensures AllBody(Chunks(memory, id, dest, source, total, from), id)
    decreases total - from
  {
    if from < total {
      ChunksAllBody(memory, id, dest, source, total, from + Min(CHUNK_SIZE, total - from));
    }
  }

  lemma FilledCompose(a: Assembly, b: Assembly, c: Assembly, f: seq<u8>, lo: nat, mid: nat, hi: nat)
    requires lo <= mid <= hi && Filled(a, b, f, lo, mid) && Filled(b, c, f, mid, hi)
    ensures Filled(a, c, f, lo, hi)
  {
  }

  lemma NoChunks(a: Assembly, f: seq<u8>, at: nat, id: u64)
    requires forall x :: x in a.content ==> x < |f| && a.content[x] == f[x]
    ensures AllBody([], id) && Assemble(a, []) == Ok(a) && Filled(a, a, f, at, at)
  {
  }

  /** The chunks of a buffer region are accepted and fill the region. */
  lemma {:induction false} ChunksAssemble(a: Assembly, f: seq<u8>, memory: Memory, id: u64, dest: u32, source: u64,
          total: u32, from: nat)
    returns (b: Assembly)
    requires from <= total && dest + total <= a.meta.payloadLen
    requires forall x :: x in a.content ==> x < |f| && a.content[x] == f[x]
    requires dest + total <= |f|
    requires forall x :: dest + from <= x < dest + total ==> f[x] == memory(Address(source, x - dest))
    requires IsoTransfer(a.meta) || forall x :: x in a.content ==> x < dest + from
    ensures AllBody(Chunks(memory, id, dest, source, total, from), id)
    ensures Assemble(a, Chunks(memory, id, dest, source, total, from)) == Ok(b)
    ensures Filled(a, b, f, dest + from, dest + total)
    decreases total - from
  {
    hide Extend; hide Assemble; hide DataRecord; hide AllBody; hide Address; hide Filled;
    if from == total {
      b := a;
      NoChunks(a, f, dest + from, id);
    } else {
      var n := Min(CHUNK_SIZE, total - from);
      var at, mid := Address(source, from), dest + (from + n);
      forall x | dest + from <= x < mid
        ensures f[x] == memory(Address(at, x - (dest + from)))
      {
        AddressShift(source, from, x - (dest + from));
      }
      var rest := Chunks(memory, id, dest, source, total, from + n);
      ChunksAllBody(memory, id, dest, source, total, from + n);
      var c := ChunkExtends(a, f, memory, id, dest + from, at, n, rest);
      b := ChunksAssemble(c, f, memory, id, dest, source, total, from + n);
      FilledCompose(a, c, b, f, dest + from, mid, dest + total);
      var whole := [DataRecord(memory, id, dest + from, at, n)] + rest;
      assert Assemble(a, whole) == Ok(b);
      assert Chunks(memory, id, dest, source, total, from) == whole;
    }
  }

  lemma ConsAssembles(a: Assembly, r: Record, c: Assembly, rest: seq<Record>, id: u64)
    requires IsBody(r) && r.id == id && Extend(a, r) == Ok(c) && AllBody(rest, id)
    ensures AllBody([r] + rest, id) && Assemble(a, [r] + rest) == Assemble(c, rest)
  {
    assert ([r] + rest)[1..] == rest;
  }

  lemma ConcatAssembles(a: Assembly, p: seq<Record>, b: Assembly, q: seq<Record>, id: u64)
    requires AllBody(p, id) && AllBody(q, id) && Assemble(a, p) == Ok(b)
    ensures AllBody(p + q, id) && Assemble(a, p + q) == Assemble(b, q)
  {
    AssembleAppend(a, p, q);
  }

  ghost predicate AllBody(rs: seq<Record>, id: u64) {
    forall r :: r in rs ==> IsBody(r) && r.id == id
  }

  ghost function Opening(u: Urb): Assembly
    requires Emittable(u)
  {
    Assembly(FinalMeta(u), [], map[], 0)
  }

  /** The bytes of the payload span, ISO gaps included. */
  ghost function Image(memory: Memory, u: Urb): (f: seq<u8>)
    ensures |f| == PayloadLen(u) && forall x :: 0 <= x < |f| ==> f[x] == BufferByte(memory, u, x)
  {
    seq<u8>(PayloadLen(u), x requires 0 <= x => BufferByte(memory, u, x))
  }

  // ----- ISO -----

  /** What the first `count` frames have delivered. */
  ghost predicate FramesDelivered(memory: Memory, u: Urb, count: nat, b: Assembly)
    requires Emittable(u) && count <= |u.frames|
  {
    && b.meta == FinalMeta(u) && b.iso == u.frames[..count]
    && b.copied == (if DataPhase(u.meta) then SumLengths(u.frames[..count]) else 0)
    && (forall x: nat :: x in b.content <==> DataPhase(u.meta) && InFrame(u.frames[..count], x))
    && (forall x: nat :: x in b.content ==> x < PayloadLen(u) && b.content[x] == BufferByte(memory, u, x))
  }

  lemma FrameFits(u: Urb, i: nat)
    requires Emittable(u) && IsoTransfer(u.meta) && DataPhase(u.meta) && i < |u.frames| && u.frames[i].length != 0
    ensures u.frames[i].offset + u.frames[i].length <= PayloadLen(u)
  {
    Rel.SpanMeans(u.frames);
    assert u.frames[i] in u.frames;
  }

  /** The data of one frame, if any, fills the frame. */
  lemma FrameChunks(memory: Memory, id: u64, u: Urb, i: nat, c: Assembly) returns (b: Assembly)
    requires Emittable(u) && IsoTransfer(u.meta) && DataPhase(u.meta) && i < |u.frames|
    requires c.meta == FinalMeta(u)
    requires forall x :: x in c.content ==> x < PayloadLen(u) && c.content[x] == Image(memory, u)[x]
    ensures var d := u.frames[i];
            var rs := Chunks(memory, id, d.offset, Address(u.buffer, d.offset), d.length, 0);
            && AllBody(rs, id) && Assemble(c, rs) == Ok(b)
            && (if d.length != 0 then Filled(c, b, Image(memory, u), d.offset, d.offset + d.length) else b == c)
  {
    hide Assemble; hide Address; hide AllBody;
    var d := u.frames[i];
    b := c;
    if d.length == 0 {
      NoChunks(c, Image(memory, u), 0, id);
    } else {
      FrameFits(u, i);
      var source := Address(u.buffer, d.offset);
      forall x: nat | d.offset <= x < d.offset + d.length
        ensures Image(memory, u)[x] == memory(Address(source, x - d.offset))
      {
        AddressShift(u.buffer, d.offset, x - d.offset);
      }
      b := ChunksAssemble(c, Image(memory, u), memory, id, d.offset, source, d.length, 0);
    }
  }

  lemma FrameAssembles(memory: Memory, id: u64, u: Urb, i: nat, a: Assembly) returns (b: Assembly)
    requires ValidUrb(u) && Emittable(u) && IsoTransfer(u.meta) && i < |u.frames| < TWO32
    requires FramesDelivered(memory, u, i, a)
    ensures var rs := FrameRecords(memory, id, i, u.buffer, u.frames[i], DataPhase(u.meta));
            AllBody(rs, id) && Assemble(a, rs) == Ok(b)
    ensures FramesDelivered(memory, u, i + 1, b)
  {
    var d := u.frames[i];
    IsoRoundTrip(d);
    var c := a.(iso := a.iso + [d]);
    var rest := [];
    b := c;
    if DataPhase(u.meta) {
      rest := Chunks(memory, id, d.offset, Address(u.buffer, d.offset), d.length, 0);
      b := FrameChunks(memory, id, u, i, c);
    }
    ConsAssembles(a, IsoRecord(id, i, d), c, rest, id);
    FramesExtend(memory, u, i, a, b);
  }

  lemma FramesExtend(memory: Memory, u: Urb, i: nat, a: Assembly, b: Assembly)
    requires Emittable(u) && i < |u.frames| && FramesDelivered(memory, u, i, a)
    requires var d := u.frames[i];
             var c := a.(iso := a.iso + [d]);
             if DataPhase(u.meta) && d.length != 0
             then Filled(c, b, Image(memory, u), d.offset, d.offset + d.length)
             else b == c
    ensures FramesDelivered(memory, u, i + 1, b)
  {
    var d, p := u.frames[i], u.frames[..i];
    assert u.frames[..i + 1] == p + [d];
    SumLengthsAppend(p, d);
    forall x: nat
      ensures InFrame(p + [d], x) <==> InFrame(p, x) || d.offset <= x < d.offset + d.length
    {
      assert forall e :: e in p + [d] <==> e in p || e == d;
    }
  }

  lemma {:induction false} IsoAssembles(memory: Memory, id: u64, u: Urb, count: nat) returns (b: Assembly)
    requires ValidUrb(u) && Emittable(u) && IsoTransfer(u.meta) && count <= |u.frames| < TWO32
    ensures AllBody(IsoBody(memory, id, u, count), id) && Assemble(Opening(u), IsoBody(memory, id, u, count)) == Ok(b)
    ensures FramesDelivered(memory, u, count, b)
  {
    hide Extend;
    if count == 0 {
      b := Opening(u);
    } else {
      var a := IsoAssembles(memory, id, u, count - 1);
      b := FrameAssembles(memory, id, u, count - 1, a);
      ConcatAssembles(Opening(u), IsoBody(memory, id, u, count - 1), a,
                      FrameRecords(memory, id, count - 1, u.buffer, u.frames[count - 1], DataPhase(u.meta)), id);
    }
  }

  // ----- scatter-gather -----

  lemma {:induction false} SgBytesPrefix(memory: Memory, chain: seq<Segment>, i: nat, n: nat, total: nat)
    requires i <= n <= |chain|
    ensures SgBytes(memory, chain, i, total) <= SgBytes(memory, chain, n, total)
    decreases n
  {
    if i < n {
      SgBytesPrefix(memory, chain, i, n - 1, total);
    }
  }

  lemma SgImage(memory: Memory, u: Urb, count: nat)
    requires PayloadLen(u) < TWO32 && !IsoTransfer(u.meta) && 0 < count <= Entries(u)
    ensures var before := Gathered(u.chain, count - 1, PayloadLen(u));
            forall x :: before <= x < Gathered(u.chain, count, PayloadLen(u)) ==>
                          Image(memory, u)[x] == memory(Address(u.chain[count - 1].source, x - before))
  {
    var total := PayloadLen(u);
    var before := Gathered(u.chain, count - 1, total);
    var source := u.chain[count - 1].source;
    SgBytesPrefix(memory, u.chain, count, Entries(u), total);
    forall x | before <= x < Gathered(u.chain, count, total)
      ensures Image(memory, u)[x] == memory(Address(source, x - before))
    {
      assert SgBytes(memory, u.chain, count, total)[x]
        == MemoryBytes(memory, source, Gathered(u.chain, count, total) - before)[x - before];
      assert SgBytes(memory, u.chain, Entries(u), total)[x] == SgBytes(memory, u.chain, count, total)[x];
    }
  }

  lemma FilledSoFar(u: Urb, a: Assembly, f: seq<u8>, mid: nat)
    requires Emittable(u) && Filled(Opening(u), a, f, 0, mid)
    ensures a.meta == FinalMeta(u) && forall x :: x in a.content ==> x < mid && x < |f| && a.content[x] == f[x]
  {
  }

  lemma FilledThen(o: Assembly, p: seq<Record>, a: Assembly, q: seq<Record>, b: Assembly, f: seq<u8>, mid: nat, hi: nat,
          id: u64)
    requires AllBody(p, id) && Assemble(o, p) == Ok(a) && Filled(o, a, f, 0, mid)
    requires AllBody(q, id) && Assemble(a, q) == Ok(b) && Filled(a, b, f, mid, hi)
    requires mid <= hi
    ensures AllBody(p + q, id) && Assemble(o, p + q) == Ok(b) && Filled(o, b, f, 0, hi)
  {
    ConcatAssembles(o, p, a, q, id);
    FilledCompose(o, a, b, f, 0, mid, hi);
  }

  /** The chunks of the first entries spell out the first bytes they hold. */
  lemma {:induction false} SgAssembles(memory: Memory, id: u64, u: Urb, count: nat) returns (b: Assembly)
    requires ValidUrb(u) && Emittable(u) && !IsoTransfer(u.meta) && u.sgCount != 0 && count <= Entries(u)
    ensures AllBody(SgBody(memory, id, u.chain, count, PayloadLen(u)), id)
    ensures Assemble(Opening(u), SgBody(memory, id, u.chain, count, PayloadLen(u))) == Ok(b)
    ensures Filled(Opening(u), b, Image(memory, u), 0, Gathered(u.chain, count, PayloadLen(u)))
  {
    hide Extend; hide ExpectedPayload; hide Filled; hide AllBody; hide Assemble; hide Image; hide Address;
    if count == 0 {
      b := Opening(u);
      NoChunks(b, Image(memory, u), 0, id);
    } else {
      var total, f := PayloadLen(u), Image(memory, u);
      var before, after := Gathered(u.chain, count - 1, total), Gathered(u.chain, count, total);
      var source := u.chain[count - 1].source;
      var p, q := SgBody(memory, id, u.chain, count - 1, total), Chunks(memory, id, before, source, after - before, 0);
      var a := SgAssembles(memory, id, u, count - 1);
      SgImage(memory, u, count);
      FilledSoFar(u, a, f, before);
      b := ChunksAssemble(a, f, memory, id, before, source, after - before, 0);
      FilledThen(Opening(u), p, a, q, b, f, before, after, id);
      assert SgBody(memory, id, u.chain, count, total) == p + q;
    }
  }

  // ----- any body -----

  /** Every stream body is accepted, and a complete one leaves exactly the URB's bytes. */
  lemma BodyAssembles(memory: Memory, id: u64, u: Urb) returns (b: Assembly, n: nat)
    requires ValidUrb(u) && Emittable(u) && |u.frames| < TWO32
    ensures AllBody(Body(memory, id, u), id) && Assemble(Opening(u), Body(memory, id, u)) == Ok(b)
    ensures IsoTransfer(u.meta) ==> FramesDelivered(memory, u, |u.frames|, b)
    ensures !IsoTransfer(u.meta) ==> Filled(Opening(u), b, Image(memory, u), 0, n)
    ensures !IsoTransfer(u.meta) ==> forall translated :: Supported(u, translated) ==> n == PayloadLen(u)
  {
    n := PayloadLen(u);
    if IsoTransfer(u.meta) {
      b := IsoAssembles(memory, id, u, |u.frames|);
    } else if u.sgCount != 0 {
      b := SgAssembles(memory, id, u, Entries(u));
      n := Gathered(u.chain, Entries(u), PayloadLen(u));
    } else {
      b := ChunksAssemble(Opening(u), Image(memory, u), memory, id, 0, u.buffer, PayloadLen(u), 0);
    }
  }

  /** A body cut short anywhere is accepted too, and its ISO descriptors are the URB's first ones. */
  lemma PrefixAssembles(memory: Memory, id: u64, u: Urb, k: nat)
    requires ValidUrb(u) && Emittable(u) && |u.frames| < TWO32 && k <= |Body(memory, id, u)|
    ensures AllBody(Body(memory, id, u)[..k], id)
    ensures Assemble(Opening(u), Body(memory, id, u)[..k]).Ok?
    ensures var b := Assemble(Opening(u), Body(memory, id, u)[..k]).value;
            b.meta == FinalMeta(u) && (IsoTransfer(u.meta) ==> b.iso <= u.frames)
  {
    var whole, n := BodyAssembles(memory, id, u);
    var p, q := Body(memory, id, u)[..k], Body(memory, id, u)[k..];
    assert p + q == Body(memory, id, u);
    AssembleAppend(Opening(u), p, q);
    var b := Assemble(Opening(u), p).value;
    MetaKept(Opening(u), p);
    MetaKept(b, q);
    if IsoTransfer(u.meta) {
      assert u.frames[..|u.frames|] == u.frames;
    }
  }

  lemma {:induction false} MetaKept(a: Assembly, rs: seq<Record>)
    requires (forall r :: r in rs ==> IsBody(r)) && Assemble(a, rs).Ok?
    ensures Assemble(a, rs).value.meta == a.meta && a.iso <= Assemble(a, rs).value.iso
    decreases rs
  {
    if rs != [] {
      MetaKept(Extend(a, rs[0]).value, rs[1..]);
    }
  }

  /** The complete body passes the completeness test and is released as the exact event. */
  lemma CompleteBodyReleases(memory: Memory, id: u64, u: Urb, translated: bool)
    requires ValidUrb(u) && Emittable(u) && |u.frames| < TWO32 && Supported(u, translated)
    ensures AllBody(Body(memory, id, u), id) && Assemble(Opening(u), Body(memory, id, u)).Ok?
    ensures var b := Assemble(Opening(u), Body(memory, id, u)).value;
            && CopiedBytes(u) < TWO64 && Finished(b, CopiedBytes(u), |u.frames|, COMPLETE)
            && Release(b) == ExactEvent(memory, u)
  {
    CopiedFits(u);
    var b, n := BodyAssembles(memory, id, u);
    if IsoTransfer(u.meta) {
      assert u.frames[..|u.frames|] == u.frames;
      FramesFinished(memory, u, b);
    } else {
      assert IsExtent(b.content.Keys, n);
      assert Release(b).payload == ExactEvent(memory, u).payload;
    }
  }

  lemma FramesFinished(memory: Memory, u: Urb, b: Assembly)
    requires ValidUrb(u) && Emittable(u) && IsoTransfer(u.meta) && |u.frames| < TWO32
    requires FramesDelivered(memory, u, |u.frames|, b)
    requires CopiedBytes(u) < TWO64
    ensures Finished(b, CopiedBytes(u), |u.frames|, COMPLETE)
    ensures Release(b) == ExactEvent(memory, u)
  {
    hide BufferByte; hide Written; hide InFrame; hide Span; hide SumLengths;
    assert u.frames[..|u.frames|] == u.frames;
    FramesExtent(memory, u, b);
    if DataPhase(u.meta) {
      AllFramesWritten(memory, u, b);
      if PayloadLen(u) == 0 {
        Rel.SpanMeans(u.frames);
        NoLengths(u.frames);
      }
    }
    SamePayload(memory, u, b);
  }

  lemma AllFramesWritten(memory: Memory, u: Urb, b: Assembly)
    requires Emittable(u) && FramesDelivered(memory, u, |u.frames|, b) && DataPhase(u.meta)
    ensures forall d :: d in u.frames ==> Written(b.content, d.offset, d.length)
  {
    hide BufferByte; hide PayloadLen;
    assert u.frames[..|u.frames|] == u.frames;
  }

  lemma FramesExtent(memory: Memory, u: Urb, b: Assembly)
    requires Emittable(u) && IsoTransfer(u.meta) && FramesDelivered(memory, u, |u.frames|, b)
    ensures IsExtent(b.content.Keys, PayloadLen(u))
  {
    hide BufferByte; hide Span;
    assert u.frames[..|u.frames|] == u.frames;
    Rel.SpanMeans(u.frames);
    var n := PayloadLen(u);
    if n != 0 {
      var d :| d in u.frames && d.length != 0 && d.offset + d.length == n;
      assert InFrame(u.frames, n - 1);
    }
  }

  lemma SamePayload(memory: Memory, u: Urb, b: Assembly)
    requires Emittable(u) && IsoTransfer(u.meta) && FramesDelivered(memory, u, |u.frames|, b)
    requires IsExtent(b.content.Keys, PayloadLen(u))
    ensures Release(b).payload == ExactEvent(memory, u).payload
  {
    hide BufferByte; hide PayloadLen;
    assert u.frames[..|u.frames|] == u.frames;
    var p, q := Release(b).payload, ExactEvent(memory, u).payload;
    ExtentUnique(b.content.Keys, |p|, PayloadLen(u));
    forall x: nat | x < |p|
      ensures p[x] == q[x]
    {
      assert x in b.content <==> DataPhase(u.meta) && InFrame(u.frames, x);
    }
  }

  lemma {:induction false} NoLengths(frames: seq<IsoDescriptor>)
    requires forall d :: d in frames ==> d.length == 0
    ensures SumLengths(frames) == 0
  {
    if frames != [] {
      NoLengths(frames[1..]);
    }
  }
}
