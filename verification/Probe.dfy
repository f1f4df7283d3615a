/**
 The kernel side of one observation: `emit` and the loop callbacks that copy contiguous,
 scatter-gather and ISO buffers to the ring. Any helper call may fail; `faults` fixes which.
 */
module Probe {
  import opened Bytes
  import opened Records
  import opened Reassembly
  import opened Emission

  /** The per-observation counters of the statistics map. */
  datatype Losses = Losses(ring: nat, read: nat, unsupported: nat, sgEvents: nat) {
    function Total(): nat { ring + read + unsupported }
  }

  const NO_LOSSES := Losses(0, 0, 0, 0)

  lemma {:induction false} IsoBodyPrefix(memory: Memory, id: u64, u: Urb, i: nat, n: nat)
    requires i <= n <= |u.frames| < TWO32
    ensures IsoBody(memory, id, u, i) <= IsoBody(memory, id, u, n)
    decreases n
  {
    if i < n {
      IsoBodyPrefix(memory, id, u, i, n - 1);
    }
  }

  lemma {:induction false} SgBodyPrefix(memory: Memory, id: u64, chain: seq<Segment>, i: nat, n: nat, total: u32)
    requires i <= n <= |chain|
    ensures SgBody(memory, id, chain, i, total) <= SgBody(memory, id, chain, n, total)
    ensures Gathered(chain, i, total) <= Gathered(chain, n, total)
    ensures Gathered(chain, i, total) == total ==>
            SgBody(memory, id, chain, i, total) == SgBody(memory, id, chain, n, total)
    decreases n
  {
    if i < n {
      SgBodyPrefix(memory, id, chain, i, n - 1, total);
    }
  }

  lemma SumLengthsStart(frames: seq<IsoDescriptor>)
    ensures SumLengths(frames[..0]) == 0
  {
  }

  lemma {:induction false} SumLengthsPrefix(frames: seq<IsoDescriptor>, i: nat)
    requires i < |frames|
    ensures SumLengths(frames[..i + 1]) == SumLengths(frames[..i]) + frames[i].length <= SumLengths(frames)
    decreases |frames|
  {
    assert frames[..i + 1] == frames[..i] + [frames[i]];
    SumLengthsAppend(frames[..i], frames[i]);
    var p, d := frames[..|frames| - 1], frames[|frames| - 1];
    assert frames == p + [d];
    SumLengthsAppend(p, d);
    if i < |p| {
      SumLengthsPrefix(p, i);
      assert p[..i + 1] == frames[..i + 1];
    } else {
      assert frames[..i + 1] == frames;
    }
  }

  /** A stage that adds a beginning of `stage` after `done` stays within any stream starting with both. */
  lemma StageWithin<T>(base: seq<T>, done: seq<T>, stage: seq<T>, whole: seq<T>, ring: seq<T>)
    requires base + done <= ring <= (base + done) + stage && done + stage <= whole
    ensures base <= ring <= base + whole
    ensures ring == (base + done) + stage ==> ring == base + (done + stage)
  {
    assert (base + done) + stage == base + (done + stage);
    assert base + (done + stage) <= base + whole;
  }

  lemma PrefixCancel<T>(base: seq<T>, p: seq<T>, q: seq<T>)
    requires base + p <= base + q
    ensures p <= q
  {
    forall i | 0 <= i < |p|
      ensures p[i] == q[i]
    {
      assert (base + p)[|base| + i] == (base + q)[|base| + i];
    }
  }

  lemma RingTail<T>(before: seq<T>, first: T, body: seq<T>, last: seq<T>, ring: seq<T>)
    requires ring == ((before + [first]) + body) + last
    ensures before <= ring && ring[|before|..] == ([first] + body) + last
  {
  }

  /** What the END decision makes of a stream whose body went as far as `body`. */
  lemma StreamOutcome(memory: Memory, id: u64, u: Urb, translated: bool, body: seq<Record>, reason: u32, copied: u64,
          descriptors: u32, full: bool)
    requires ValidUrb(u) && Emittable(u) && body <= Body(memory, id, u)
    requires reason == COMPLETE ==> body == Body(memory, id, u) && Supported(u, translated)
                                    && copied == CopiedBytes(u) && descriptors == |u.frames|
    ensures var records := [BeginRecord(id, FinalMeta(u))] + body
                           + if full then [] else [EndRecord(id, copied, descriptors, reason)];
            if full || reason != COMPLETE then TruncatedStream(memory, id, u, records)
            else ExactStream(memory, id, u, translated, records)
  {
    var prior := [BeginRecord(id, FinalMeta(u))] + body;
    assert body == Body(memory, id, u)[..|body|];
    assert prior + [] == prior;
    if full {
      assert Truncation(memory, id, u, |body|, 0, 0, LOSS_RING, prior);
    } else if reason != COMPLETE {
      assert Truncation(memory, id, u, |body|, copied, descriptors, reason,
        prior + [EndRecord(id, copied, descriptors, reason)]);
    }
  }

  // ----- the scatter-gather walk -----

  datatype SgContext = SgContext(next: nat, segmentsLeft: nat, segmentLeft: nat, source: u64, remaining: nat,
          copied: nat)

  /** Where the bytes of the open entry start, and how many of them the payload takes. */
  function EntryStart(chain: seq<Segment>, total: nat, next: nat): nat
    requires 0 < next <= |chain|
  {
    Gathered(chain, next - 1, total)
  }

  function EntrySize(chain: seq<Segment>, total: nat, next: nat): nat
    requires 0 < next <= |chain|
  {
    Min(chain[next - 1].length, total - EntryStart(chain, total, next))
  }

  ghost predicate Copying(chain: seq<Segment>, segments: u32, total: u32, c: SgContext) {
    && c.next <= Min(segments, |chain|) && c.segmentsLeft == segments - c.next
    && c.copied + c.remaining == total && c.segmentLeft <= c.remaining
    && c.copied + c.segmentLeft == Gathered(chain, c.next, total)
    && (c.next == 0 ==> c.segmentLeft == 0)
    && (c.segmentLeft > 0 ==>
          && c.segmentLeft <= EntrySize(chain, total, c.next)
          && c.source == Address(chain[c.next - 1].source, EntrySize(chain, total, c.next) - c.segmentLeft))
  }

  /** The chunks of the open entry that are still to come. */
  ghost function Owed(memory: Memory, id: u64, chain: seq<Segment>, total: u32, c: SgContext): seq<Record>
    requires c.segmentLeft > 0 ==> 0 < c.next <= |chain| && c.segmentLeft <= EntrySize(chain, total, c.next)
  {
    if c.segmentLeft == 0 then [] else
    var size := EntrySize(chain, total, c.next);
    Chunks(memory, id, EntryStart(chain, total, c.next), chain[c.next - 1].source, size, size - c.segmentLeft)
  }

  ghost predicate OnTrack(memory: Memory, id: u64, chain: seq<Segment>, total: u32, c: SgContext, base: seq<Record>,
          ring: seq<Record>) {
    && c.next <= |chain|
    && (c.segmentLeft > 0 ==> 0 < c.next && c.segmentLeft <= EntrySize(chain, total, c.next))
    && base <= ring
    && ring + Owed(memory, id, chain, total, c) == base + SgBody(memory, id, chain, c.next, total)
  }

  /** Rounds that may still be needed. */
  function Cost(c: SgContext): nat {
    c.segmentsLeft + Rounds(c.remaining) + if c.segmentLeft > 0 then 1 else 0
  }

  function Open(chain: seq<Segment>, c: SgContext): SgContext
    requires c.next < |chain| && c.segmentsLeft > 0
  {
    c.(next := c.next + 1, segmentsLeft := c.segmentsLeft - 1,
       segmentLeft := Min(chain[c.next].length, c.remaining), source := chain[c.next].source)
  }

  function Advance(c: SgContext): SgContext
    requires c.segmentLeft <= c.remaining
  {
    var n := Min(c.segmentLeft, CHUNK_SIZE);
    c.(copied := c.copied + n, source := Address(c.source, n),
       segmentLeft := c.segmentLeft - n, remaining := c.remaining - n)
  }

  lemma OpenStep(memory: Memory, id: u64, chain: seq<Segment>, segments: u32, total: u32, c: SgContext,
          base: seq<Record>, ring: seq<Record>)
    requires Copying(chain, segments, total, c) && OnTrack(memory, id, chain, total, c, base, ring)
    requires c.segmentLeft == 0 && c.next < |chain| && c.segmentsLeft > 0
    ensures Copying(chain, segments, total, Open(chain, c))
            && OnTrack(memory, id, chain, total, Open(chain, c), base, ring)
    ensures Cost(Open(chain, c)) <= Cost(c)
    ensures Open(chain, c).segmentLeft == 0 ==> Cost(Open(chain, c)) < Cost(c)
  {
    var d := Open(chain, c);
    var chunks := Chunks(memory, id, c.copied, chain[c.next].source, EntrySize(chain, total, d.next), 0);
    assert SgBody(memory, id, chain, d.next, total) == SgBody(memory, id, chain, c.next, total) + chunks;
    assert ring == base + SgBody(memory, id, chain, c.next, total);
    assert ring + chunks == base + (SgBody(memory, id, chain, c.next, total) + chunks);
    assert Owed(memory, id, chain, total, d) == chunks;
  }

  lemma RoundsDrop(n: nat, k: nat)
    requires k <= n
    ensures Rounds(n - k) <= Rounds(n)
    ensures k == CHUNK_SIZE ==> Rounds(n - k) == Rounds(n) - 1
  {
  }

  lemma AdvanceKeeps(chain: seq<Segment>, segments: u32, total: u32, c: SgContext)
    requires Copying(chain, segments, total, c) && c.segmentLeft > 0
    ensures Copying(chain, segments, total, Advance(c)) && Cost(Advance(c)) < Cost(c)
  {
    var n := Min(c.segmentLeft, CHUNK_SIZE);
    var size := EntrySize(chain, total, c.next);
    RoundsDrop(c.remaining, n);
    AddressShift(chain[c.next - 1].source, size - c.segmentLeft, n);
  }

  lemma OwedStep(memory: Memory, id: u64, chain: seq<Segment>, segments: u32, total: u32, c: SgContext)
    requires Copying(chain, segments, total, c) && c.segmentLeft > 0
    requires Copying(chain, segments, total, Advance(c))
    ensures Owed(memory, id, chain, total, c)
            == [DataRecord(memory, id, c.copied, c.source, Min(c.segmentLeft, CHUNK_SIZE))]
               + Owed(memory, id, chain, total, Advance(c))
  {
    var size, start, source := EntrySize(chain, total, c.next), EntryStart(chain, total, c.next),
      chain[c.next - 1].source;
    var from, n := size - c.segmentLeft, Min(c.segmentLeft, CHUNK_SIZE);
    assert Gathered(chain, c.next, total) == start + size;
    assert Chunks(memory, id, start, source, size, from)
        == [DataRecord(memory, id, start + from, Address(source, from), n)]
           + Chunks(memory, id, start, source, size, from + n);
    assert Owed(memory, id, chain, total, Advance(c)) == Chunks(memory, id, start, source, size, from + n);
  }

  lemma CopyStep(memory: Memory, id: u64, chain: seq<Segment>, segments: u32, total: u32, c: SgContext,
          base: seq<Record>, ring: seq<Record>)
    requires Copying(chain, segments, total, c) && OnTrack(memory, id, chain, total, c, base, ring)
    requires c.segmentLeft > 0
    ensures Copying(chain, segments, total, Advance(c)) && Cost(Advance(c)) < Cost(c)
    ensures var r := DataRecord(memory, id, c.copied, c.source, Min(c.segmentLeft, CHUNK_SIZE));
            OnTrack(memory, id, chain, total, Advance(c), base, ring + [r])
  {
    hide Chunks; hide SgBody; hide Gathered; hide Rounds; hide MemoryBytes; hide Address;
    AdvanceKeeps(chain, segments, total, c);
    OwedStep(memory, id, chain, segments, total, c);
    var r := DataRecord(memory, id, c.copied, c.source, Min(c.segmentLeft, CHUNK_SIZE));
    var later := Owed(memory, id, chain, total, Advance(c));
    assert (ring + [r]) + later == ring + ([r] + later);
  }

  lemma OnTrackWithin(memory: Memory, id: u64, chain: seq<Segment>, total: u32, c: SgContext, base: seq<Record>,
          ring: seq<Record>)
    requires OnTrack(memory, id, chain, total, c, base, ring)
    ensures base <= ring <= base + SgBody(memory, id, chain, c.next, total)
  {
  }

  lemma CopiedAll(memory: Memory, id: u64, chain: seq<Segment>, segments: u32, total: u32, c: SgContext,
          base: seq<Record>, ring: seq<Record>)
    requires Copying(chain, segments, total, c) && OnTrack(memory, id, chain, total, c, base, ring) && c.remaining == 0
    ensures Gathered(chain, Min(segments, |chain|), total) == total
    ensures ring == base + SgBody(memory, id, chain, Min(segments, |chain|), total)
  {
    SgBodyPrefix(memory, id, chain, c.next, Min(segments, |chain|), total);
  }

  lemma SgStart(memory: Memory, id: u64, chain: seq<Segment>, segments: u32, total: u32, base: seq<Record>)
    ensures var c := SgContext(0, segments, 0, 0, total, 0);
            && Copying(chain, segments, total, c) && OnTrack(memory, id, chain, total, c, base, base)
            && Cost(c) == segments + Rounds(total)
  {
  }

  lemma SgProgress(chain: seq<Segment>, segments: u32, total: u32, c: SgContext)
    requires Copying(chain, segments, total, c)
    ensures c.copied + c.remaining == total && c.next <= Min(segments, |chain|)
    ensures Cost(c) == 0 ==> c.remaining == 0
  {
  }

  class Emitter {
    const memory: Memory
    /** Whether the n-th fallible helper call fails. */
    const faults: nat -> bool
    /** Whether page translation is configured. */
    const translated: bool
    var clock: nat
    var ring: seq<Record>
    var lost: Losses

    ghost predicate NoFaults() {
      forall n: nat :: !faults(n)
    }

    constructor (memory: Memory, faults: nat -> bool, translated: bool)
      ensures this.memory == memory && this.faults == faults && this.translated == translated
      ensures ring == [] && lost == NO_LOSSES && (NoFaults() <==> forall n: nat :: !faults(n))
    {
      this.memory, this.faults, this.translated := memory, faults, translated;
      clock, ring, lost := 0, [], NO_LOSSES;
    }

    method Fails() returns (failed: bool)
      modifies this`clock
      ensures NoFaults() ==> !failed
    {
      failed := faults(clock);
      clock := clock + 1;
    }

    method CountRing()
      modifies this`lost
      ensures lost == old(lost).(ring := old(lost).ring + 1)
    {
      lost := lost.(ring := lost.ring + 1);
    }

    method CountRead()
      modifies this`lost
      ensures lost == old(lost).(read := old(lost).read + 1)
    {
      lost := lost.(read := lost.read + 1);
    }

    method CountUnsupported()
      modifies this`lost
      ensures lost == old(lost).(unsupported := old(lost).unsupported + 1)
    {
      lost := lost.(unsupported := lost.unsupported + 1);
    }

    /** Reserves a record with room for `limit` bytes, fills it and publishes it, or discards it. */
    method CopyChunk(id: u64, dest: u64, source: u64, n: nat, limit: nat) returns (reason: u32)
      modifies this`clock, this`ring, this`lost
      ensures n == 0 || n > limit ==> reason == LOSS_READ && ring == old(ring) && lost == old(lost)
      ensures 0 < n <= limit ==>
                if reason == COMPLETE
                then ring == old(ring) + [DataRecord(memory, id, dest, source, n)] && lost == old(lost)
                else ring == old(ring) && lost.Total() > old(lost).Total()
      ensures 0 < n <= limit && NoFaults() ==> reason == COMPLETE
    {
      if n == 0 || n > limit { return LOSS_READ; }
      var full := Fails();
      if full {
        CountRing();
        return LOSS_RING;
      }
      var unreadable := Fails();
      if unreadable {
        CountRead();
        return LOSS_READ;
      }
      ring := ring + [DataRecord(memory, id, dest, source, n)];
      return COMPLETE;
    }

    /** The contiguous copy loop; each chunk reserves the smallest of four record sizes that holds it. */
    method CopyRange(id: u64, dest: u32, source: u64, total: u32) returns (reason: u32, copied: nat)
      modifies this`clock, this`ring, this`lost
      ensures old(ring) <= ring <= old(ring) + Chunks(memory, id, dest, source, total, 0)
      ensures reason == COMPLETE ==> ring == old(ring) + Chunks(memory, id, dest, source, total, 0)
                                     && copied == total && lost == old(lost)
      ensures reason != COMPLETE ==> lost.Total() > old(lost).Total()
      ensures copied <= total
      ensures NoFaults() ==> reason == COMPLETE
    {
      reason, copied := COMPLETE, 0;
      var iterations := Rounds(total);
      ghost var goal := old(ring) + Chunks(memory, id, dest, source, total, 0);
      var index := 0;
      while index < iterations
        invariant 0 <= index <= iterations && reason == COMPLETE && lost == old(lost)
        invariant copied == Min(index * CHUNK_SIZE, total)
        invariant old(ring) <= ring && ring + Chunks(memory, id, dest, source, total, copied) == goal
      {
        var offset := index * CHUNK_SIZE;
        if offset >= total { break; }
        var n := Min(total - offset, CHUNK_SIZE);
        var limit := if n <= 256 then 256 else if n <= 1024 then 1024 else if n <= 4096 then 4096 else CHUNK_SIZE;
        reason := CopyChunk(id, dest + offset, Address(source, offset), n, limit);
        if reason != COMPLETE { break; }
        copied := copied + n;
        index := index + 1;
      }
      assert ring <= goal;
    }

    /** First pass over the ISO frames: bounds and span. */
    method MeasureFrames(u: Urb) returns (ok: bool, span: nat)
      requires ValidUrb(u)
      modifies this`clock
      ensures ok ==> FramesInside(u.frames, u.meta.requestedLen) && span == Span(u.frames)
      ensures FramesInside(u.frames, u.meta.requestedLen) && NoFaults() ==> ok
    {
      span := 0;
      for index := 0 to |u.frames|
        invariant FramesInside(u.frames[..index], u.meta.requestedLen) && span == Span(u.frames[..index])
      {
        var d := u.frames[index];
        assert u.frames[..index + 1] == u.frames[..index] + [d];
        assert u.frames[..index + 1][..index] == u.frames[..index];
        var unreadable := Fails();
        if unreadable { return false, span; }
        if d.offset + d.length > u.meta.requestedLen { return false, span; }
        if d.length != 0 { span := Max(span, d.offset + d.length); }
      }
      assert u.frames[..|u.frames|] == u.frames;
      return true, span;
    }

    /** One frame of the second pass: its descriptor, then its data. */
    method EmitFrame(id: u64, u: Urb, index: u32) returns (reason: u32, published: bool, copied: nat)
      requires index < |u.frames|
      modifies this`clock, this`ring, this`lost
      ensures var records := FrameRecords(memory, id, index, u.buffer, u.frames[index], DataPhase(u.meta));
              && old(ring) <= ring <= old(ring) + records
              && (reason == COMPLETE ==> ring == old(ring) + records && lost == old(lost) && published)
      ensures reason == COMPLETE ==> copied == if DataPhase(u.meta) then u.frames[index].length else 0
      ensures reason != COMPLETE ==> lost.Total() > old(lost).Total()
      ensures copied <= u.frames[index].length
      ensures NoFaults() ==> reason == COMPLETE
    {
      var d := u.frames[index];
      var unreadable := Fails();
      if unreadable {
        CountRead();
        return LOSS_READ, false, 0;
      }
      var full := Fails();
      if full {
        CountRing();
        return LOSS_RING, false, 0;
      }
      ring := ring + [IsoRecord(id, index, d)];
      reason, published, copied := COMPLETE, true, 0;
      if DataPhase(u.meta) && d.length != 0 {
        var loopFailed := Fails();
        if loopFailed {
          reason := LOSS_READ;
          CountRead();
        } else {
          reason, copied := CopyRange(id, d.offset, Address(u.buffer, d.offset), d.length);
        }
      }
    }

    /** Second pass over the ISO frames. */
    method EmitFrames(id: u64, u: Urb) returns (reason: u32, copied: nat, descriptors: nat)
      requires |u.frames| < TWO32
      modifies this`clock, this`ring, this`lost
      ensures old(ring) <= ring <= old(ring) + IsoBody(memory, id, u, |u.frames|)
      ensures reason == COMPLETE ==> ring == old(ring) + IsoBody(memory, id, u, |u.frames|) && lost == old(lost)
                                     && copied == (if DataPhase(u.meta) then SumLengths(u.frames) else 0)
                                     && descriptors == |u.frames|
      ensures reason != COMPLETE ==> lost.Total() > old(lost).Total()
      ensures copied <= SumLengths(u.frames) && descriptors <= |u.frames|
      ensures NoFaults() ==> reason == COMPLETE
    {
      hide FrameRecords; hide SumLengths;
      reason, copied, descriptors := COMPLETE, 0, 0;
      SumLengthsStart(u.frames);
      for index := 0 to |u.frames|
        invariant reason == COMPLETE && descriptors == index && lost == old(lost)
        invariant copied == if DataPhase(u.meta) then SumLengths(u.frames[..index]) else 0
        invariant SumLengths(u.frames[..index]) <= SumLengths(u.frames)
        invariant ring == old(ring) + IsoBody(memory, id, u, index)
      {
        SumLengthsPrefix(u.frames, index);
        IsoBodyPrefix(memory, id, u, index + 1, |u.frames|);
        ghost var records := FrameRecords(memory, id, index, u.buffer, u.frames[index], DataPhase(u.meta));
        var published, n;
        reason, published, n := EmitFrame(id, u, index);
        StageWithin(old(ring), IsoBody(memory, id, u, index), records, IsoBody(memory, id, u, |u.frames|), ring);
        if published { descriptors := descriptors + 1; }
        copied := copied + n;
        if reason != COMPLETE { return; }
      }
      assert u.frames[..|u.frames|] == u.frames;
    }

    /** Reads the next entry of the chain. */
    method NextEntry(id: u64, chain: seq<Segment>, segments: u32, total: u32, c: SgContext, ghost base: seq<Record>)
      returns (reason: u32, d: SgContext)
      requires Copying(chain, segments, total, c) && OnTrack(memory, id, chain, total, c, base, ring)
      requires c.remaining > 0 && c.segmentLeft == 0
      modifies this`clock, this`lost
      ensures Copying(chain, segments, total, d) && OnTrack(memory, id, chain, total, d, base, ring)
      ensures if reason == COMPLETE
              then lost == old(lost) && Cost(d) <= Cost(c) && (d.segmentLeft == 0 ==> Cost(d) < Cost(c))
              else lost.Total() > old(lost).Total()
      ensures NoFaults() && Gathered(chain, Min(segments, |chain|), total) == total ==> reason == COMPLETE
    {
      SgBodyPrefix(memory, id, chain, c.next, Min(segments, |chain|), total);
      if c.next == |chain| || c.segmentsLeft == 0 {
        CountRead();
        return LOSS_READ, c;
      }
      var unreadable := Fails();
      if unreadable {
        CountRead();
        return LOSS_READ, c;
      }
      OpenStep(memory, id, chain, segments, total, c, base, ring);
      return COMPLETE, Open(chain, c);
    }

    /** One round: opens the next entry when the last is used up, then copies a chunk if there is one. */
    method SgRound(id: u64, chain: seq<Segment>, segments: u32, total: u32, c: SgContext, ghost base: seq<Record>)
      returns (reason: u32, d: SgContext)
      requires Copying(chain, segments, total, c) && OnTrack(memory, id, chain, total, c, base, ring) && c.remaining > 0
      modifies this`clock, this`ring, this`lost
      ensures Copying(chain, segments, total, d) && OnTrack(memory, id, chain, total, d, base, ring)
      ensures if reason == COMPLETE then lost == old(lost) && Cost(d) < Cost(c) else lost.Total() > old(lost).Total()
      ensures NoFaults() && Gathered(chain, Min(segments, |chain|), total) == total ==> reason == COMPLETE
    {
      reason, d := COMPLETE, c;
      if c.segmentLeft == 0 {
        reason, d := NextEntry(id, chain, segments, total, c, base);
        if reason != COMPLETE { return; }
      }
      var n := Min(d.segmentLeft, CHUNK_SIZE);
      if n == 0 { return; }
      CopyStep(memory, id, chain, segments, total, d, base, ring);
      reason := CopyChunk(id, d.copied, d.source, n, CHUNK_SIZE);
      if reason == COMPLETE { d := Advance(d); }
    }

    /**
     The scatter-gather loop. Whatever the entry lengths, `segments + ceil(total / CHUNK)` rounds are
     enough: it never runs out of rounds before the payload is copied or a loss is recorded.
     */
    method SgLoop(id: u64, chain: seq<Segment>, segments: u32, total: u32, iterations: nat)
      returns (reason: u32, copied: nat, remaining: nat)
      requires iterations == segments + Rounds(total)
      modifies this`clock, this`ring, this`lost
      ensures var n := Min(segments, |chain|);
              && old(ring) <= ring <= old(ring) + SgBody(memory, id, chain, n, total)
              && (reason == COMPLETE ==> ring == old(ring) + SgBody(memory, id, chain, n, total) && lost == old(lost))
              && (reason == COMPLETE ==> Gathered(chain, n, total) == total)
              && (NoFaults() && Gathered(chain, n, total) == total ==> reason == COMPLETE)
      ensures copied + remaining == total && (remaining == 0 || reason != COMPLETE)
      ensures reason != COMPLETE ==> lost.Total() > old(lost).Total()
    {
      hide Copying; hide OnTrack; hide Cost; hide SgBody; hide Gathered;
      var c := SgContext(0, segments, 0, 0, total, 0);
      SgStart(memory, id, chain, segments, total, ring);
      reason := COMPLETE;
      var index := 0;
      while index < iterations
        invariant 0 <= index <= iterations && reason == COMPLETE && lost == old(lost)
        invariant Copying(chain, segments, total, c) && OnTrack(memory, id, chain, total, c, old(ring), ring)
        invariant index + Cost(c) <= iterations
      {
        if c.remaining == 0 { break; }
        reason, c := SgRound(id, chain, segments, total, c, old(ring));
        if reason != COMPLETE { break; }
        index := index + 1;
      }
      copied, remaining := c.copied, c.remaining;
      SgProgress(chain, segments, total, c);
      SgBodyPrefix(memory, id, chain, c.next, Min(segments, |chain|), total);
      OnTrackWithin(memory, id, chain, total, c, old(ring), ring);
      if remaining == 0 {
        CopiedAll(memory, id, chain, segments, total, c, old(ring), ring);
      }
    }

    method CopySg(id: u64, chain: seq<Segment>, segments: u32, total: u32) returns (reason: u32, copied: nat)
      modifies this`clock, this`ring, this`lost
      ensures var n := Min(segments, |chain|);
              && old(ring) <= ring <= old(ring) + SgBody(memory, id, chain, n, total)
              && (reason == COMPLETE ==> ring == old(ring) + SgBody(memory, id, chain, n, total) && copied == total
                                         && translated && segments + Rounds(total) < TWO32
                                            && Gathered(chain, n, total) == total)
              && (NoFaults() && translated && segments + Rounds(total) < TWO32 && Gathered(chain, n, total) == total
                  ==> reason == COMPLETE)
      ensures copied <= total
      ensures if reason == COMPLETE then lost.Total() == old(lost).Total() else lost.Total() > old(lost).Total()
    {
      lost := lost.(sgEvents := lost.sgEvents + 1);
      if !translated {
        CountUnsupported();
        return LOSS_UNSUPPORTED_BUFFER, 0;
      }
      var unreadable := Fails();
      if unreadable {
        CountRead();
        return LOSS_READ, 0;
      }
      var iterations := segments + Rounds(total);
      if iterations >= TWO32 {
        CountRead();
        return LOSS_READ, 0;
      }
      var loopFailed := Fails();
      var remaining := total;
      reason, copied := COMPLETE, 0;
      if !loopFailed {
        reason, copied, remaining := SgLoop(id, chain, segments, total, iterations);
      }
      if loopFailed || (remaining != 0 && reason == COMPLETE) {
        reason := LOSS_READ;
        CountRead();
      }
    }

    /** The payload of a non-ISO event. */
    method CopyPayload(id: u64, u: Urb) returns (reason: u32, copied: nat)
      requires Emittable(u) && |u.frames| < TWO32 && !IsoTransfer(u.meta)
      modifies this`clock, this`ring, this`lost
      ensures old(ring) <= ring <= old(ring) + Body(memory, id, u)
      ensures reason == COMPLETE ==>
              ring == old(ring) + Body(memory, id, u) && copied == PayloadLen(u) && Supported(u, translated)
      ensures if reason == COMPLETE then lost.Total() == old(lost).Total() else lost.Total() > old(lost).Total()
      ensures copied < TWO64
      ensures NoFaults() && Supported(u, translated) ==> reason == COMPLETE
    {
      var total := PayloadLen(u);
      reason, copied := COMPLETE, 0;
      if total == 0 {
        SgBodyPrefix(memory, id, u.chain, 0, Entries(u), 0);
        return;
      }
      if u.sgCount != 0 {
        reason, copied := CopySg(id, u.chain, u.sgCount, total);
      } else if u.buffer == 0 {
        reason := LOSS_UNSUPPORTED_BUFFER;
        CountUnsupported();
      } else {
        var loopFailed := Fails();
        if loopFailed {
          reason := LOSS_READ;
          CountRead();
        } else {
          reason, copied := CopyRange(id, 0, u.buffer, total);
        }
      }
    }

    /** The descriptors and data of an ISO event. */
    method CopyFrames(id: u64, u: Urb) returns (reason: u32, copied: nat, descriptors: nat)
      requires Emittable(u) && |u.frames| < TWO32 && IsoTransfer(u.meta)
      modifies this`clock, this`ring, this`lost
      ensures old(ring) <= ring <= old(ring) + Body(memory, id, u)
      ensures reason == COMPLETE ==> ring == old(ring) + Body(memory, id, u) && copied == CopiedBytes(u)
                                     && descriptors == |u.frames| && Supported(u, translated)
      ensures if reason == COMPLETE then lost.Total() == old(lost).Total() else lost.Total() > old(lost).Total()
      ensures copied < TWO64 && descriptors < TWO32
      ensures NoFaults() && Supported(u, translated) ==> reason == COMPLETE
    {
      reason, copied, descriptors := COMPLETE, 0, 0;
      if PayloadLen(u) != 0 && (u.sgCount != 0 || u.buffer == 0) {
        reason := LOSS_UNSUPPORTED_BUFFER;
        CountUnsupported();
        return;
      }
      SumLengthsBound(u.frames);
      assert |u.frames| * (TWO32 - 1) <= (TWO32 - 1) * (TWO32 - 1);
      var loopFailed := Fails();
      if loopFailed {
        reason := LOSS_READ;
        CountRead();
      } else {
        reason, copied, descriptors := EmitFrames(id, u);
      }
    }

    /**
     One observation. Whatever fails, the ring receives either the complete stream, or a truncated one
     together with at least one more counted loss; and when nothing fails and the buffer is of a
     supported kind, it is the complete stream and no loss is counted.
     */
    method Emit(id: u64, u: Urb)
      requires ValidUrb(u)
      modifies this`clock, this`ring, this`lost
      ensures old(ring) <= ring && lost.Total() >= old(lost).Total()
      ensures Observation(memory, id, u, translated, ring[|old(ring)|..], lost.Total() - old(lost).Total())
      ensures NoFaults() && Emittable(u) && Supported(u, translated) ==>
                && ExactStream(memory, id, u, translated, ring[|old(ring)|..])
                && lost.Total() == old(lost).Total()
    {
      var unreadable := Fails();
      if unreadable {
        CountRead();
        return;
      }
      var payloadLen := 0;
      if IsoTransfer(u.meta) {
        var loopFailed := Fails();
        var ok, span := false, 0;
        if !loopFailed { ok, span := MeasureFrames(u); }
        if !ok {
          CountRead();
          return;
        }
        if DataPhase(u.meta) { payloadLen := span; }
      } else if DataPhase(u.meta) {
        payloadLen := if u.meta.eventType == SUBMIT then u.meta.requestedLen else u.meta.actualLen;
      }
      assert payloadLen == PayloadLen(u);
      if payloadLen > u.meta.requestedLen || u.meta.requestedLen > 0x7fff_ffff {
        CountRead();
        return;
      }
      var full := Fails();
      if full {
        CountRing();
        return;
      }
      EmitRecords(id, u);
    }

    /** From BEGIN on. */
    method EmitRecords(id: u64, u: Urb)
      requires ValidUrb(u) && Emittable(u)
      modifies this`clock, this`ring, this`lost
      ensures old(ring) <= ring && lost.Total() >= old(lost).Total()
      ensures Observation(memory, id, u, translated, ring[|old(ring)|..], lost.Total() - old(lost).Total())
      ensures NoFaults() && Supported(u, translated) ==>
                && ExactStream(memory, id, u, translated, ring[|old(ring)|..])
                && lost.Total() == old(lost).Total()
    {
      hide TruncatedStream; hide ExactStream; hide Supported; hide Body; hide BeginRecord; hide EndRecord;
      hide FinalMeta;
      ring := ring + [BeginRecord(id, FinalMeta(u))];
      ghost var begun := ring;
      var reason, copied, descriptors := COMPLETE, 0, 0;
      if IsoTransfer(u.meta) {
        reason, copied, descriptors := CopyFrames(id, u);
      } else {
        reason, copied := CopyPayload(id, u);
      }
      ghost var body := ring[|begun|..];
      assert begun + body == ring;
      assert begun + body <= begun + Body(memory, id, u);
      PrefixCancel(begun, body, Body(memory, id, u));
      var full := Fails();
      if full {
        CountRing();
      } else {
        ring := ring + [EndRecord(id, copied, descriptors, reason)];
      }
      RingTail(old(ring), BeginRecord(id, FinalMeta(u)), body,
               if full then [] else [EndRecord(id, copied, descriptors, reason)], ring);
      StreamOutcome(memory, id, u, translated, body, reason, copied, descriptors, full);
    }
  }
}
