/**
 The record stream one URB observation should produce: BEGIN, then data chunks and ISO descriptors
 in order, then END. Ring reservations and kernel reads may fail anywhere; module Probe shows what
 the program emits then.
 */
module Emission {
  import opened Bytes
  import opened Records
  import opened Reassembly

  /** Kernel memory, stable during one observation. */
  type Memory = u64 -> u8

  /** One scatter-gather entry after address translation. */
  datatype Segment = Segment(source: u64, length: u32)

  /**
   What the accessors read of a URB: `meta` as filled in before the payload is measured, the transfer
   buffer, the scatter-gather entry count and chain, and the ISO frames with the lengths of this phase.
   */
  datatype Urb = Urb(meta: EventMeta, buffer: u64, sgCount: u32, chain: seq<Segment>, frames: seq<IsoDescriptor>)

  ghost predicate ValidUrb(u: Urb) {
    && (u.meta.eventType == SUBMIT || u.meta.eventType == COMPLETION || u.meta.eventType == SUBMIT_ERROR)
    && u.meta.transferType <= 3 && u.meta.setupPresent <= 1
    && u.meta.hasData == 0 && u.meta.payloadLen == 0
    && u.meta.isoCount == |u.frames| && (!IsoTransfer(u.meta) ==> u.frames == [])
  }

  function PayloadLen(u: Urb): nat { ExpectedPayload(u.meta, u.frames) }

  /** The guards before BEGIN is reserved. */
  ghost predicate Emittable(u: Urb) {
    && PayloadLen(u) <= u.meta.requestedLen <= 0x7fff_ffff
    && (IsoTransfer(u.meta) ==> FramesInside(u.frames, u.meta.requestedLen))
  }

  function FinalMeta(u: Urb): EventMeta
    requires PayloadLen(u) < TWO32
  {
    u.meta.(payloadLen := PayloadLen(u), hasData := if PayloadLen(u) != 0 then 1 else 0)
  }

  // ----- records -----

  function Address(base: u64, offset: nat): u64 { (base + offset) % TWO64 }

  lemma AddressShift(base: u64, m: nat, n: nat)
    ensures Address(Address(base, m), n) == Address(base, m + n)
  {
  }

  function MemoryBytes(memory: Memory, source: u64, n: nat): (b: seq<u8>)
    ensures |b| == n
  {
    seq<u8>(n, i requires 0 <= i < n => memory(Address(source, i)))
  }

  function DataRecord(memory: Memory, id: u64, offset: u64, source: u64, n: nat): Record {
    Record(RECORD_DATA, id, offset, MemoryBytes(memory, source, n))
  }

  /** `total` bytes at `source`, in chunks, for offsets from `dest + from`. */
  function Chunks(memory: Memory, id: u64, dest: u32, source: u64, total: u32, from: nat): seq<Record>
    requires from <= total
    decreases total - from
  {
    if from == total then [] else
    var n := Min(CHUNK_SIZE, total - from);
    [DataRecord(memory, id, dest + from, Address(source, from), n)] + Chunks(memory, id, dest, source, total, from + n)
  }

  function IsoRecord(id: u64, index: u32, d: IsoDescriptor): Record {
    Record(RECORD_ISO, id, index, EncodeIso(d))
  }

  function FrameRecords(memory: Memory, id: u64, index: u32, buffer: u64, d: IsoDescriptor, data: bool): seq<Record> {
    [IsoRecord(id, index, d)]
    + if data then Chunks(memory, id, d.offset, Address(buffer, d.offset), d.length, 0) else []
  }

  function IsoBody(memory: Memory, id: u64, u: Urb, count: nat): seq<Record>
    requires count <= |u.frames| < TWO32
  {
    if count == 0 then [] else
    IsoBody(memory, id, u, count - 1)
      + FrameRecords(memory, id, count - 1, u.buffer, u.frames[count - 1], DataPhase(u.meta))
  }

  /** How many bytes of `total` the first `count` entries supply. */
  function Gathered(chain: seq<Segment>, count: nat, total: nat): (n: nat)
    requires count <= |chain|
    ensures n <= total
  {
    if count == 0 then 0 else
    var before := Gathered(chain, count - 1, total);
    before + Min(chain[count - 1].length, total - before)
  }

  /** The chunks of the first `count` entries, cut off at `total` bytes. */
  function SgBody(memory: Memory, id: u64, chain: seq<Segment>, count: nat, total: u32): seq<Record>
    requires count <= |chain|
  {
    if count == 0 then [] else
    var before := Gathered(chain, count - 1, total);
    SgBody(memory, id, chain, count - 1, total)
      + Chunks(memory, id, before, chain[count - 1].source, Min(chain[count - 1].length, total - before), 0)
  }

  function Entries(u: Urb): nat { Min(u.sgCount, |u.chain|) }

  /** Every record between BEGIN and END when nothing fails. */
  function Body(memory: Memory, id: u64, u: Urb): seq<Record>
    requires PayloadLen(u) < TWO32 && |u.frames| < TWO32
  {
    if IsoTransfer(u.meta) then IsoBody(memory, id, u, |u.frames|)
    else if u.sgCount != 0 then SgBody(memory, id, u.chain, Entries(u), PayloadLen(u))
    else Chunks(memory, id, 0, u.buffer, PayloadLen(u), 0)
  }

  function BeginRecord(id: u64, m: EventMeta): Record {
    Record(RECORD_BEGIN, id, 0, EncodeMeta(m))
  }

  function EndRecord(id: u64, copied: u64, descriptors: u32, reason: u32): Record {
    Record(RECORD_END, id, 0, EncodeEnd(copied, descriptors, reason))
  }

  function CopiedBytes(u: Urb): nat {
    if IsoTransfer(u.meta) && DataPhase(u.meta) then SumLengths(u.frames)
    else if IsoTransfer(u.meta) then 0
    else PayloadLen(u)
  }

  lemma {:induction false} SumLengthsAppend(p: seq<IsoDescriptor>, d: IsoDescriptor)
    ensures SumLengths(p + [d]) == SumLengths(p) + d.length
  {
    if p == [] {
      assert ([d])[1..] == [];
    } else {
      assert (p + [d])[1..] == p[1..] + [d];
      SumLengthsAppend(p[1..], d);
    }
  }

  lemma {:induction false} SumLengthsBound(frames: seq<IsoDescriptor>)
    ensures SumLengths(frames) <= |frames| * (TWO32 - 1)
  {
    if frames != [] {
      SumLengthsBound(frames[1..]);
    }
  }

  /** The copied-byte counter cannot overflow. */
  lemma CopiedFits(u: Urb)
    requires PayloadLen(u) < TWO32 && |u.frames| < TWO32
    ensures CopiedBytes(u) < TWO64
  {
    SumLengthsBound(u.frames);
    assert |u.frames| * (TWO32 - 1) <= (TWO32 - 1) * (TWO32 - 1);
  }

  /** The complete stream of one observation. */
  function Full(memory: Memory, id: u64, u: Urb): seq<Record>
    requires PayloadLen(u) < TWO32 && |u.frames| < TWO32
  {
    CopiedFits(u);
    [BeginRecord(id, FinalMeta(u))] + Body(memory, id, u) + [EndRecord(id, CopiedBytes(u), |u.frames|, COMPLETE)]
  }

  /** Chunks needed for `n` bytes. */
  function Rounds(n: nat): nat { (n + CHUNK_SIZE - 1) / CHUNK_SIZE }

  /** The buffers the program can copy, and that hold what the URB declares. */
  ghost predicate Supported(u: Urb, translated: bool) {
    PayloadLen(u) == 0
    || if IsoTransfer(u.meta) then u.sgCount == 0 && u.buffer != 0
       else if u.sgCount != 0 then
         && translated && u.sgCount + Rounds(PayloadLen(u)) < TWO32
         && Gathered(u.chain, Entries(u), PayloadLen(u)) == PayloadLen(u)
       else u.buffer != 0
  }

  // ----- what one observation may put on the ring -----

  ghost predicate ExactStream(memory: Memory, id: u64, u: Urb, translated: bool, records: seq<Record>) {
    && Emittable(u) && Supported(u, translated) && |u.frames| < TWO32
    && records == Full(memory, id, u)
  }

  /** A proper beginning of the stream, possibly closed by an END that admits the loss. */
  ghost predicate TruncatedStream(memory: Memory, id: u64, u: Urb, records: seq<Record>) {
    records == []
    || (&& Emittable(u) && |u.frames| < TWO32
        && exists k, copied, descriptors, reason | 0 <= k <= |Body(memory, id, u)| ::
             Truncation(memory, id, u, k, copied, descriptors, reason, records))
  }

  ghost predicate Truncation(memory: Memory, id: u64, u: Urb, k: nat, copied: u64, descriptors: u32, reason: u32,
          records: seq<Record>)
    requires Emittable(u) && |u.frames| < TWO32 && k <= |Body(memory, id, u)|
  {
    var begun := [BeginRecord(id, FinalMeta(u))] + Body(memory, id, u)[..k];
    records == begun || (reason != COMPLETE && records == begun + [EndRecord(id, copied, descriptors, reason)])
  }

  /** The contract of one observation: everything, or a truncated stream and a counted loss. */
  ghost predicate Observation(memory: Memory, id: u64, u: Urb, translated: bool, records: seq<Record>, losses: nat) {
    ExactStream(memory, id, u, translated, records)
    || (losses > 0 && TruncatedStream(memory, id, u, records))
  }

  // ----- the event it stands for -----

  /** The bytes of the first `count` entries, cut off at `total`. */
  function SgBytes(memory: Memory, chain: seq<Segment>, count: nat, total: nat): (b: seq<u8>)
    requires count <= |chain|
    ensures |b| == Gathered(chain, count, total)
  {
    if count == 0 then [] else
    var before := Gathered(chain, count - 1, total);
    SgBytes(memory, chain, count - 1, total)
      + MemoryBytes(memory, chain[count - 1].source, Min(chain[count - 1].length, total - before))
  }

  ghost function BufferByte(memory: Memory, u: Urb, x: nat): u8 {
    if u.sgCount != 0 && !IsoTransfer(u.meta) then
      var b := SgBytes(memory, u.chain, Entries(u), PayloadLen(u));
      if x < |b| then b[x] else 0
    else memory(Address(u.buffer, x))
  }

  /** The URB's own buffer contents, with zeros between ISO frames. */
  ghost function ExactEvent(memory: Memory, u: Urb): Event
    requires PayloadLen(u) < TWO32
  {
    Event(0, FinalMeta(u), u.frames,
          seq<u8>(PayloadLen(u), x requires 0 <= x =>
            if IsoTransfer(u.meta) && !InFrame(u.frames, x) then 0 else BufferByte(memory, u, x)),
          true, true)
  }
}
