/** What the filter and the writer may rely on: events from either source always hold every byte they promise. */
module Downstream {
  import opened Bytes
  import opened Records
  import opened Reassembly
  import opened Streams
  import opened Release
  import opened Filter
  import opened PcapngRoundTrip
  import W = Pcapng
  import R = PcapngRead

  /** Neither evaluation nor writing can run out of payload. */
  ghost predicate NeverShort(e: Event) {
    && (forall x: Expr, latency :: Evaluate(x, e, latency).Ok?)
    && (forall w: W.WriterState :: W.WriteEvent(w, e).Ok? <==> Room(w.interfaces, e.sourceId) && W.Total(e) < TWO32)
  }

  lemma FullNeverShort(e: Event)
    requires FullPayload(e)
    ensures NeverShort(e)
  {
    forall x: Expr, latency
      ensures Evaluate(x, e, latency).Ok?
    {
      EvaluateNeverFails(x, e, latency);
    }
    forall w: W.WriterState
      ensures W.WriteEvent(w, e).Ok? <==> Room(w.interfaces, e.sourceId) && W.Total(e) < TWO32
    {
      WriteOne(w, e);
    }
  }

  /** Every event the reassembler releases, after any stream. */
  lemma ReleasedNeverShort(rs: seq<Record>, r: Record, e: Event)
    requires Run(START, rs).Ok?
    requires Unbounded(Run(START, rs).value.state, r).Ok?
    requires Unbounded(Run(START, rs).value.state, r).value.1 == Some(e)
    ensures NeverShort(e)
  {
    ReleasedMeansComplete(rs, r, e);
    FullNeverShort(e);
  }

  // ----- events read from files -----

  /** The reader's own promise: payload and descriptors as long as declared, data inside the payload, none missing. */
  ghost predicate ReadShape(e: Event) {
    && BodyPromise(e) && !R.LostData(e.meta, e.iso, W.UrbLength(e.meta))
  }

  ghost predicate BodyPromise(e: Event) {
    && |e.payload| == e.meta.payloadLen && |e.iso| == e.meta.isoCount
    && (!IsoTransfer(e.meta) ==> e.iso == [])
    && (e.meta.hasData == 0 ==> e.payload == [])
    && (IsoTransfer(e.meta) && e.meta.hasData != 0 ==>
          forall d :: d in e.iso && d.length != 0 ==> d.offset + d.length <= e.meta.payloadLen)
  }

  lemma {:induction false} DescriptorsShape(b: seq<u8>, count: nat, endian: R.Endian, m: EventMeta, known: bool)
    requires |b| == 16 * count && R.ReadDescriptors(b, count, endian, m, known).Ok?
    ensures var iso := R.ReadDescriptors(b, count, endian, m, known).value;
            && |iso| == count
            && (m.hasData != 0 ==> forall d | d in iso && d.length != 0 :: d.offset + d.length <= m.payloadLen)
    decreases count
  {
    hide R.ReadDescriptor;
    if count > 0 {
      var iso := R.ReadDescriptors(b, count, endian, m, known).value;
      var d := R.ReadDescriptor(b[..16], endian);
      var rest := R.ReadDescriptors(b[16..], count - 1, endian, m, known).value;
      DescriptorsShape(b[16..], count - 1, endian, m, known);
      assert iso == [d] + rest;
    }
  }

  lemma BodyShape(packet: seq<u8>, endian: R.Endian, source: u64, m: EventMeta, known: bool)
    requires |packet| == 64 + 16 * m.isoCount + m.payloadLen
    requires (IsoTransfer(m) || m.isoCount == 0) && (m.hasData == 0 ==> m.payloadLen == 0)
    requires R.ReadBody(packet, endian, source, m, known).Ok?
    ensures BodyPromise(R.ReadBody(packet, endian, source, m, known).value)
    ensures var e := R.ReadBody(packet, endian, source, m, known).value;
            e.meta == m.(errorCount := e.meta.errorCount, setup := e.meta.setup)
  {
    hide R.ReadDescriptors; hide R.Endian.At32;
    if IsoTransfer(m) {
      DescriptorsShape(packet[64..64 + 16 * m.isoCount], m.isoCount, endian, m, known);
    }
  }

  lemma UsbShape(s: R.State, source: u64, timestamp: u64, packet: seq<u8>, e: Event)
    requires |packet| >= 64
    requires R.ReadUsb(s, source, timestamp, packet).Ok? && R.ReadUsb(s, source, timestamp, packet).value.1 == Some(e)
    ensures ReadShape(e)
  {
    hide R.BaseMeta; hide R.ReadBody; hide R.LostData; hide R.Endian.At32; hide BodyPromise;
    var base := R.BaseMeta(packet[..64], s.endian, timestamp);
    var wireLen, dataLen := s.endian.At32(packet, 32), s.endian.At32(packet, 36);
    var sized := R.Sized(base, dataLen).value;
    var submit := sized.eventType == SUBMIT;
    var known := R.Pair(s.requested, (source, sized.urbId), submit, wireLen).1;
    var m := sized.(requestedLen := if known.Some? then known.value else 0, actualLen := if submit then 0 else wireLen);
    BodyShape(packet, s.endian, source, m, known.Some?);
  }

  lemma BlockShape(s: R.State, e: Event)
    requires R.ValidState(s) && s.input != [] && R.ReadBlock(s).Ok? && R.ReadBlock(s).value.1 == Some(e)
    ensures ReadShape(e)
  {
    hide R.ReadUsb; hide ReadShape; hide R.Endian.At32; hide R.TakeBlock; hide R.ReadOptions; hide R.ReadPacket;
    var block := R.TakeBlock(s.input, s.endian, 12).value;
    PacketShape(s, block, e);
  }

  lemma PacketShape(s: R.State, block: seq<u8>, e: Event)
    requires R.ValidState(s) && |block| >= 12
    ensures R.ReadPacket(s, block).Ok? && R.ReadPacket(s, block).value.1 == Some(e) ==> ReadShape(e)
  {
    hide R.ReadUsb; hide ReadShape; hide R.Endian.At32;
    if R.ReadPacket(s, block).Ok? && R.ReadPacket(s, block).value.1 == Some(e) {
      var index, caplen := s.endian.At32(block, 8), s.endian.At32(block, 20);
      var ticks := s.endian.At32(block, 12) * TWO32 + s.endian.At32(block, 16);
      UsbShape(s, s.interfaces[index].sourceId, R.Timestamp(ticks, s.interfaces[index]).value, block[28..28 + caplen],
        e);
    }
  }

  /** Every event the pcapng reader returns, from any file in any state, damaged or not. */
  lemma {:induction false} ReadNeverShort(s: R.State)
    requires R.ValidState(s)
    ensures R.NextEvent(s).Ok? && R.NextEvent(s).value.1.Some? ==>
              ReadShape(R.NextEvent(s).value.1.value) && NeverShort(R.NextEvent(s).value.1.value)
    decreases |s.input|
  {
    hide R.ReadBlock; hide ReadShape; hide NeverShort;
    if s.input != [] && R.ReadBlock(s).Ok? {
      var t := R.ReadBlock(s).value;
      if t.1.Some? {
        var e := t.1.value;
        BlockShape(s, e);
        ShapeIsFull(e);
        FullNeverShort(e);
      } else {
        ReadNeverShort(t.0);
      }
    }
  }

  lemma ShapeIsFull(e: Event)
    requires ReadShape(e)
    ensures FullPayload(e)
  {
  }
}
