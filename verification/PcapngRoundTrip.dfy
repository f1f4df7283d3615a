/**
 Writing events and reading them back. The format omits vendor and product, time below a microsecond, the requested
 length of a completion, the actual length of a submission, error counts outside ISO transfers, setup bytes of ISO
 transfers, and the names of capture sources; everything else returns, in order, and writing it again reproduces the
 file byte for byte.
 */
module PcapngRoundTrip {
  import opened Bytes
  import opened Records
  import opened Reassembly
  import opened Release
  import opened Pairing
  import W = Pcapng
  import R = PcapngRead
  import Wire

  // ----- what the writer adds to a file -----

  /** Source numbers in order of first use. */
  type Numbers = map<u64, u32>

  predicate Room(n: Numbers, source: u64) { source in n || |n| < TWO32 }

  function Numbered(n: Numbers, source: u64): (r: Numbers)
    requires Room(n, source)
    ensures source in r
  {
    if source in n then n else n[source := |n|]
  }

  predicate Fits(e: Event) { W.Total(e) < TWO32 && e.meta.payloadLen <= |e.payload| }

  predicate Writable(n: Numbers, es: seq<Event>)
    decreases es
  {
    es != [] ==> Room(n, es[0].sourceId) && Fits(es[0]) && Writable(Numbered(n, es[0].sourceId), es[1..])
  }

  function Announcement(n: Numbers, source: u64): seq<u8> {
    if source in n || |n| == 0 then [] else W.InterfaceBlock()
  }

  function Emitted(n: Numbers, es: seq<Event>): seq<u8>
    requires Writable(n, es)
    decreases es
  {
    if es == [] then [] else
    var next := Numbered(n, es[0].sourceId);
    Announcement(n, es[0].sourceId) + (W.PacketBlock(next[es[0].sourceId], es[0]) + Emitted(next, es[1..]))
  }

  lemma WriteOne(s: W.WriterState, e: Event)
    ensures W.WriteEvent(s, e).Ok? <==> Room(s.interfaces, e.sourceId) && Fits(e)
    ensures W.WriteEvent(s, e).Ok? ==>
              var next := Numbered(s.interfaces, e.sourceId);
              W.WriteEvent(s, e).value
              == W.WriterState(s.output + (Announcement(s.interfaces, e.sourceId) + W.PacketBlock(next[e.sourceId], e)),
                 next)
  {
    hide W.PacketBlock; hide W.InterfaceBlock; hide W.Total;
    if Room(s.interfaces, e.sourceId) && Fits(e) {
      var next := Numbered(s.interfaces, e.sourceId);
      var a := W.Allocate(s, e.sourceId).value;
      var packet := W.PacketBlock(next[e.sourceId], e);
      assert a.0.output == s.output + Announcement(s.interfaces, e.sourceId);
      assert a.0.output + packet == s.output + (Announcement(s.interfaces, e.sourceId) + packet);
    }
  }

  /** A capture can be written exactly when every event fits its block and sources stay countable. */
  lemma {:induction false} WriteAllEmits(s: W.WriterState, es: seq<Event>)
    ensures W.WriteAll(s, es).Ok? <==> Writable(s.interfaces, es)
    ensures W.WriteAll(s, es).Ok? ==> W.WriteAll(s, es).value.output == s.output + Emitted(s.interfaces, es)
    decreases es
  {
    hide W.PacketBlock; hide W.InterfaceBlock; hide W.WriteEvent; hide W.Total;
    if es == [] {
      assert s.output + [] == s.output;
    } else {
      WriteOne(s, es[0]);
      if W.WriteEvent(s, es[0]).Ok? {
        var t := W.WriteEvent(s, es[0]).value;
        WriteAllEmits(t, es[1..]);
        if Writable(t.interfaces, es[1..]) {
          Associate3(s.output, Announcement(s.interfaces, es[0].sourceId),
                     W.PacketBlock(t.interfaces[es[0].sourceId], es[0]), Emitted(t.interfaces, es[1..]));
        }
      }
    }
  }

  lemma Associate3<T>(a: seq<T>, b: seq<T>, c: seq<T>, d: seq<T>)
    ensures (a + (b + c)) + d == a + (b + (c + d))
  {
  }

  // ----- what comes back -----

  function KeyOf(e: Event): R.Key { (e.sourceId, e.meta.urbId) }

  /** Submissions not yet matched, with their requested lengths. */
  function Unmatched(p: map<R.Key, u32>, e: Event): map<R.Key, u32> {
    Track(p, Seen(KeyOf(e), e.meta.eventType == SUBMIT, e.meta.requestedLen))
  }

  predicate Matched(p: map<R.Key, u32>, e: Event) { e.meta.eventType == SUBMIT || KeyOf(e) in p }

  /** A matched completion takes the length that its submission declared. */
  function AsDeclared(p: map<R.Key, u32>, e: Event): Event {
    if e.meta.eventType != SUBMIT && KeyOf(e) in p then e.(meta := e.meta.(requestedLen := p[KeyOf(e)])) else e
  }

  lemma OnlyLength(p: map<R.Key, u32>, e: Event)
    ensures AsDeclared(p, e) == e.(meta := e.meta.(requestedLen := AsDeclared(p, e).meta.requestedLen))
    ensures e.meta.eventType == SUBMIT ==> Matched(p, e) && AsDeclared(p, e) == e
  {
  }

  /** The reader takes the event: the table has room for a submission, and the frames fit the declared length. */
  predicate Admits(p: map<R.Key, u32>, e: Event) {
    && (e.meta.eventType == SUBMIT ==> |p| < R.MAX_UNMATCHED)
    && (IsoTransfer(e.meta) && Matched(p, e) ==> FramesInside(e.iso, AsDeclared(p, e).meta.requestedLen))
  }

  /** Few enough unmatched submissions, and completions that agree with them on the requested length. */
  predicate Pairable(p: map<R.Key, u32>, es: seq<Event>)
    decreases es
  {
    es != [] ==>
      && (es[0].meta.eventType == SUBMIT ==> |p| < R.MAX_UNMATCHED)
      && (es[0].meta.eventType != SUBMIT && KeyOf(es[0]) in p ==> p[KeyOf(es[0])] == es[0].meta.requestedLen)
      && Pairable(Unmatched(p, es[0]), es[1..])
  }

  /** Metadata as the format keeps it. */
  function CanonMeta(m: EventMeta, known: bool): EventMeta {
    m.(timestamp := m.timestamp / 1000 * 1000,
       requestedLen := if known then m.requestedLen else 0,
       actualLen := if m.eventType == SUBMIT then 0 else m.actualLen,
       errorCount := if IsoTransfer(m) then m.errorCount else 0,
       vid := 0, pid := 0,
       setup := if !IsoTransfer(m) && m.setupPresent != 0 then m.setup else [0, 0, 0, 0, 0, 0, 0, 0])
  }

  function Canon(e: Event, number: u32, known: bool): Event {
    Event(number, CanonMeta(e.meta, known), e.iso, e.payload, false, known)
  }

  function CanonAll(n: Numbers, p: map<R.Key, u32>, es: seq<Event>): (r: seq<Event>)
    requires Writable(n, es)
    ensures |r| == |es|
    decreases es
  {
    if es == [] then [] else
    var next := Numbered(n, es[0].sourceId);
    [Canon(es[0], next[es[0].sourceId], Matched(p, es[0]))] + CanonAll(next, Unmatched(p, es[0]), es[1..])
  }

  /** What reading the file gives, whatever lengths its completions had. */
  function Returned(n: Numbers, p: map<R.Key, u32>, es: seq<Event>): (r: Result<seq<Event>>)
    requires Writable(n, es)
    ensures r.Ok? ==> |r.value| == |es|
    decreases es
  {
    if es == [] then Ok([])
    else if !Admits(p, es[0]) then Err
    else
      var next := Numbered(n, es[0].sourceId);
      var rest :- Returned(next, Unmatched(p, es[0]), es[1..]);
      Ok([Canon(AsDeclared(p, es[0]), next[es[0].sourceId], Matched(p, es[0]))] + rest)
  }

  /** It is every event in its canonical form exactly when the events are pairable. */
  lemma {:induction false} ReturnedIff(n: Numbers, p: map<R.Key, u32>, es: seq<Event>)
    requires Writable(n, es) && (forall e | e in es :: WellShaped(e))
    ensures Returned(n, p, es) == Ok(CanonAll(n, p, es)) <==> Pairable(p, es)
    decreases es
  {
    hide Fits; hide Unmatched;
    if es != [] {
      var e, next := es[0], Numbered(n, es[0].sourceId);
      ReturnedIff(next, Unmatched(p, e), es[1..]);
      DeclaredIff(p, e, next[e.sourceId]);
      hide Canon; hide AsDeclared; hide Admits; hide WellShaped; hide Matched; hide Numbered;
      if Returned(n, p, es).Ok? {
        assert Returned(n, p, es).value[1..] == Returned(next, Unmatched(p, e), es[1..]).value;
        assert CanonAll(n, p, es)[1..] == CanonAll(next, Unmatched(p, e), es[1..]);
      }
    }
  }

  lemma DeclaredIff(p: map<R.Key, u32>, e: Event, number: u32)
    requires WellShaped(e)
    ensures Admits(p, e) && Canon(AsDeclared(p, e), number, Matched(p, e)) == Canon(e, number, Matched(p, e))
            <==> && (e.meta.eventType == SUBMIT ==> |p| < R.MAX_UNMATCHED)
                 && (e.meta.eventType != SUBMIT && KeyOf(e) in p ==> p[KeyOf(e)] == e.meta.requestedLen)
  {
    var d := Canon(AsDeclared(p, e), number, Matched(p, e));
    if Matched(p, e) {
      assert d.meta.requestedLen == AsDeclared(p, e).meta.requestedLen;
    }
    if AsDeclared(p, e).meta.requestedLen == e.meta.requestedLen {
      assert AsDeclared(p, e) == e;
    }
  }

  // ----- one packet -----

  lemma LittleReads(b: seq<u8>, at: nat)
    ensures at + 2 <= |b| ==> R.Endian.Little.At16(b, at) == U16At(b, at)
    ensures at + 4 <= |b| ==> R.Endian.Little.At32(b, at) == U32At(b, at)
    ensures at + 8 <= |b| ==> R.Endian.Little.At64(b, at) == U64At(b, at)
  {
  }

  lemma HeaderRead(m: EventMeta, dataLen: u32, b: seq<u8>, tail: seq<u8>)
    requires b == W.Header(m, dataLen) + tail
    ensures 64 <= |b| && b[64..] == tail
    ensures U64At(b, 0) == m.urbId && b[8] == m.eventType && b[9] == m.transferType && b[10] == m.endpoint
    ensures b[11] == m.device && U16At(b, 12) == m.bus && b[14] == W.SetupFlag(m) && b[15] == W.DataFlag(m)
    ensures U32At(b, 28) == Unsigned(m.status) && U32At(b, 32) == W.UrbLength(m) && U32At(b, 36) == dataLen
    ensures b[40..48] == W.HeaderMiddle(m)
    ensures U32At(b, 48) == Unsigned(m.interval) && U32At(b, 52) == Unsigned(m.startFrame)
    ensures U32At(b, 56) == m.transferFlags && U32At(b, 60) == m.isoCount
  {
    hide W.HeaderMiddle; hide W.HeaderStart; hide W.HeaderEnd; hide Pack; hide U32; hide U16; hide U64;
    var start, middle, end := Pack(W.HeaderStart(m, dataLen)), W.HeaderMiddle(m), Pack(W.HeaderEnd(m));
    assert start + middle + end + tail == start + (middle + (end + tail));
    W.HeaderStartRead(m, dataLen, b, middle + (end + tail));
    assert b[40..48] == b[40..][..8] && b[40..][8..] == b[48..];
    W.HeaderEndRead(m, b[48..], tail);
    ShiftReads(b, 48, 0); ShiftReads(b, 48, 4); ShiftReads(b, 48, 8); ShiftReads(b, 48, 12);
    assert b[48..][16..] == b[64..];
  }

  lemma ShiftReads(b: seq<u8>, base: nat, at: nat)
    requires base + at + 4 <= |b|
    ensures U32At(b[base..], at) == U32At(b, base + at)
  {
    assert b[base..][at..at + 4] == b[base + at..base + at + 4];
  }

  lemma MiddleRead(m: EventMeta, b: seq<u8>)
    requires |b| >= 48 && b[40..48] == W.HeaderMiddle(m)
    ensures IsoTransfer(m) ==> U32At(b, 40) == Unsigned(m.errorCount) && U32At(b, 44) == m.isoCount
    ensures !IsoTransfer(m) && m.setupPresent != 0 ==> b[40..48] == m.setup
  {
    Pow256Values();
    assert b[40..44] == b[40..48][..4] && b[44..48] == b[40..48][4..];
    LeRoundTrip(Unsigned(m.errorCount), 4);
    LeRoundTrip(m.isoCount, 4);
  }

  /** Descriptors come back one by one exactly when each is inside what the reader allows. */
  lemma {:induction false} DescriptorsRead(iso: seq<IsoDescriptor>, m: EventMeta, known: bool)
    requires forall d | d in iso :: d.offset + d.length < TWO32
    requires m.hasData != 0 ==> forall d | d in iso && d.length != 0 :: d.offset + d.length <= m.payloadLen
    ensures |W.Descriptors(iso)| == 16 * |iso|
    ensures R.ReadDescriptors(W.Descriptors(iso), |iso|, R.Endian.Little, m, known)
            == if known && !FramesInside(iso, m.requestedLen) then Err else Ok(iso)
  {
    W.DescriptorsSize(iso);
    if iso != [] {
      var d := iso[0];
      W.DescriptorsSize(iso[1..]);
      IsoRoundTrip(d);
      var b := W.Descriptors(iso);
      assert b[..16] == EncodeIso(d) && b[16..] == W.Descriptors(iso[1..]);
      LittleReads(b[..16], 0); LittleReads(b[..16], 4); LittleReads(b[..16], 8);
      DescriptorRead(d);
      DescriptorsRead(iso[1..], m, known);
      assert [d] + iso[1..] == iso;
    }
  }

  lemma DescriptorRead(d: IsoDescriptor)
    ensures |EncodeIso(d)| == 16 && R.ReadDescriptor(EncodeIso(d), R.Endian.Little) == d
  {
    IsoRoundTrip(d);
  }

  /** What a released event promises about its descriptors, in the reader's terms. */
  lemma ShapeReads(e: Event)
    requires WellShaped(e)
    ensures forall d | d in e.iso :: IsoTransfer(e.meta) ==> d.offset + d.length <= e.meta.requestedLen
    ensures !IsoTransfer(e.meta) ==> e.iso == []
    ensures IsoTransfer(e.meta) && e.meta.hasData != 0 ==>
              forall d | d in e.iso && d.length != 0 :: d.offset + d.length <= e.meta.payloadLen
  {
  }

  /** A released event never looks as if its data had been lost. */
  lemma NeverLooksLost(e: Event, known: bool, v: u32)
    requires WellShaped(e)
    ensures !R.LostData(CanonMeta(e.meta.(requestedLen := v), known), e.iso, W.UrbLength(e.meta))
  {
    var m := e.meta;
    SpanMeans(e.iso);
    assert m.payloadLen == ExpectedPayload(m, e.iso);
  }

  /** The packet of one event: pseudoheader, descriptors, payload. */
  function Packet(e: Event): seq<u8>
    requires Fits(e)
  {
    W.Header(e.meta, W.DataLen(e)) + (W.Descriptors(e.iso) + e.payload[..e.meta.payloadLen])
  }

  lemma BaseRead(e: Event, timestamp: u64)
    requires Fits(e) && WellShaped(e)
    ensures |Packet(e)| == W.CapLen(e) >= 64
    ensures R.BaseMeta(Packet(e)[..64], R.Endian.Little, timestamp)
            == CanonMeta(e.meta, false).(timestamp := timestamp, actualLen := 0, payloadLen := 0, errorCount := 0,
                                         setup := [0, 0, 0, 0, 0, 0, 0, 0])
  {
    hide W.Header; hide W.Descriptors; hide U16; hide U32; hide U64;
    var m, header := e.meta, W.Header(e.meta, W.DataLen(e));
    W.HeaderSize(m, W.DataLen(e));
    W.DescriptorsSize(e.iso);
    assert Packet(e)[..64] == header && header + [] == header;
    HeaderRead(m, W.DataLen(e), header, []);
  }

  /** The body, whatever length `v` the reader takes the request to have. */
  lemma BodyRead(e: Event, number: u32, known: bool, v: u32)
    requires Fits(e) && WellShaped(e)
    ensures |Packet(e)| == 64 + 16 * e.meta.isoCount + |e.payload|
    ensures var m := e.meta.(requestedLen := v);
            R.ReadBody(Packet(e), R.Endian.Little, number,
                       CanonMeta(m, known).(errorCount := 0, setup := [0, 0, 0, 0, 0, 0, 0, 0]), known)
            == if IsoTransfer(m) && known && !FramesInside(e.iso, v) then Err
               else Ok(Canon(e.(meta := m), number, known))
  {
    hide W.Header; hide W.HeaderMiddle; hide W.Descriptors; hide U16; hide U32; hide U64; hide R.ReadDescriptors;
    hide WellShaped;
    var m, packet := e.meta, Packet(e);
    var base := CanonMeta(m.(requestedLen := v), known).(errorCount := 0, setup := [0, 0, 0, 0, 0, 0, 0, 0]);
    assert |e.iso| == m.isoCount && |e.payload| == m.payloadLen by { ShapeSizes(e); }
    W.HeaderSize(m, W.DataLen(e));
    W.DescriptorsSize(e.iso);
    HeaderRead(m, W.DataLen(e), packet, W.Descriptors(e.iso) + e.payload[..m.payloadLen]);
    MiddleRead(m, packet);
    SplitBody(packet, W.Descriptors(e.iso), e.payload);
    ShapeReads(e);
    if IsoTransfer(m) {
      DescriptorsRead(e.iso, base, known);
    }
  }

  lemma ShapeSizes(e: Event)
    requires WellShaped(e)
    ensures |e.iso| == e.meta.isoCount && |e.payload| == e.meta.payloadLen && MetaOk(e.meta)
  {
  }

  lemma SplitBody(b: seq<u8>, d: seq<u8>, p: seq<u8>)
    requires 64 <= |b| && b[64..] == d + p[..|p|]
    ensures b[64..64 + |d|] == d && b[64 + |d|..] == p && |b| == 64 + |d| + |p|
  {
    assert b[64..][..|d|] == b[64..64 + |d|];
    assert b[64..][|d|..] == b[64 + |d|..];
  }

  lemma SizedRead(e: Event, base: EventMeta)
    requires Fits(e) && WellShaped(e) && base.isoCount == e.meta.isoCount && base.transferType == e.meta.transferType
    requires base.hasData == e.meta.hasData
    ensures R.Sized(base, W.DataLen(e)) == Ok(base.(payloadLen := e.meta.payloadLen))
  {
  }

  /** Reading pairs as the table does. */
  lemma PairRead(q: map<R.Key, u32>, e: Event)
    ensures R.Pair(q, KeyOf(e), e.meta.eventType == SUBMIT, W.UrbLength(e.meta))
            == (Unmatched(q, e), if Matched(q, e) then Some(AsDeclared(q, e).meta.requestedLen) else None)
  {
  }

  /** What one packet does to the reader. */
  function OnPacket(s: R.State, number: u32, e: Event): Result<(R.State, Option<Event>)> {
    var x := e.(sourceId := number);
    if !Admits(s.requested, x) then Err
    else Ok((s.(requested := Unmatched(s.requested, x)),
             Some(Canon(AsDeclared(s.requested, x), number, Matched(s.requested, x)))))
  }

  lemma UsbRead(s: R.State, number: u32, e: Event)
    requires Fits(e) && WellShaped(e) && s.endian.Little?
    ensures |Packet(e)| >= 64
    ensures R.ReadUsb(s, number, e.meta.timestamp / 1000 * 1000, Packet(e)) == OnPacket(s, number, e)
  {
    hide W.Header; hide W.Descriptors; hide U16; hide U32; hide U64; hide R.ReadBody; hide R.LostData; hide R.BaseMeta;
    hide WellShaped; hide Packet; hide R.Sized; hide R.Pair; hide Unmatched; hide R.Endian.At32;
    var m, packet, x := e.meta, Packet(e), e.(sourceId := number);
    var known, v := Matched(s.requested, x), AsDeclared(s.requested, x).meta.requestedLen;
    ShapeSizes(e);
    BaseRead(e, m.timestamp / 1000 * 1000);
    SizedRead(e, R.BaseMeta(packet[..64], R.Endian.Little, m.timestamp / 1000 * 1000));
    PairRead(s.requested, x);
    LengthsRead(e);
    BodyRead(e, number, known, v);
    OnlyLength(s.requested, x);
    NeverLooksLost(e, known, v);
  }

  lemma LengthsRead(e: Event)
    requires Fits(e) && WellShaped(e)
    ensures |Packet(e)| == W.CapLen(e)
    ensures R.Endian.Little.At32(Packet(e), 32) == W.UrbLength(e.meta)
            && R.Endian.Little.At32(Packet(e), 36) == W.DataLen(e)
  {
    hide W.Header; hide W.Descriptors; hide U32;
    W.HeaderSize(e.meta, W.DataLen(e));
    W.DescriptorsSize(e.iso);
    HeaderRead(e.meta, W.DataLen(e), Packet(e), W.Descriptors(e.iso) + e.payload[..e.meta.payloadLen]);
  }

  // ----- one block -----

  /** The interfaces of a file the writer produced: microsecond ticks, numbered from zero. */
  function Defaults(k: nat): (r: seq<R.Interface>)
    requires k <= TWO32
    ensures |r| == k
  {
    seq<R.Interface>(k, i requires 0 <= i < k => R.Interface(i, 220, 1_000_000, 0))
  }

  lemma PacketBlockParts(number: u32, e: Event)
    requires Fits(e)
    ensures var b := W.PacketBlock(number, e);
            && |b| == W.Total(e) && W.Total(e) % 4 == 0 && |Packet(e)| == W.CapLen(e)
            && b == Pack(W.PacketFields(number, e)) + (Packet(e) + (W.Zeros(W.Padding(e)) + Le(W.Total(e), 4)))
            && |Pack(W.PacketFields(number, e))| == 28
  {
    hide W.Header; hide W.Descriptors; hide W.PacketFields; hide Pack; hide U32;
    W.PacketSize(number, e);
    W.HeaderSize(e.meta, W.DataLen(e));
    W.DescriptorsSize(e.iso);
    var f := Pack(W.PacketFields(number, e));
    assert f + [] == f;
    W.PacketFieldsRead(number, e, f, []);
    var zeros, total := W.Zeros(W.Padding(e)), Le(W.Total(e), 4);
    Associate3([], W.Header(e.meta, W.DataLen(e)), W.Descriptors(e.iso) + e.payload[..e.meta.payloadLen],
      zeros + total);
    Regroup(W.Header(e.meta, W.DataLen(e)), W.Descriptors(e.iso), e.payload[..e.meta.payloadLen], zeros + total);
  }

  lemma Regroup<T>(a: seq<T>, b: seq<T>, c: seq<T>, d: seq<T>)
    ensures a + (b + (c + d)) == (a + (b + c)) + d
  {
  }

  /** Microseconds survive being split over two words and turned back into nanoseconds. */
  lemma TicksRead(timestamp: u64, number: u32)
    ensures var us := timestamp / 1000;
            && us / TWO32 * TWO32 + us % TWO32 == us
            && R.Timestamp(us, R.Interface(number, 220, 1_000_000, 0)) == Some(us * 1000)
  {
    var us: nat := timestamp / 1000;
    R.TimestampFloors(us, R.Interface(number, 220, 1_000_000, 0), us * 1000);
  }

  lemma PacketRead(s: R.State, number: u32, e: Event)
    requires Fits(e) && WellShaped(e) && s.endian.Little?
    requires R.ValidState(s) && |s.interfaces| <= TWO32 && s.interfaces == Defaults(|s.interfaces|)
             && number < |s.interfaces|
    ensures |W.PacketBlock(number, e)| == W.Total(e) >= 32
    ensures R.ReadPacket(s, W.PacketBlock(number, e)) == OnPacket(s, number, e)
  {
    hide R.Timestamp; hide OnPacket; hide U16; hide W.Zeros;
    hide W.Header; hide W.Descriptors; hide U32; hide R.ReadUsb; hide W.PacketBlock; hide Packet; hide WellShaped;
    hide W.PacketFields; hide Pack;
    var b := W.PacketBlock(number, e);
    PacketBlockParts(number, e);
    var tail := W.Zeros(W.Padding(e)) + Le(W.Total(e), 4);
    W.PacketFieldsRead(number, e, b, Packet(e) + tail);
    assert b[28..][..W.CapLen(e)] == Packet(e);
    assert b[28..28 + W.CapLen(e)] == b[28..][..W.CapLen(e)];
    TicksRead(e.meta.timestamp, number);
    assert s.interfaces[number] == R.Interface(number, 220, 1_000_000, 0);
    UsbRead(s, number, e);
  }

  lemma SizeField(b: seq<u8>, size: u32, front: seq<u8>)
    requires b == front + Le(size, 4) && |b| == size
    ensures size >= 4 && U32At(b, size - 4) == size
  {
    Pow256Values();
    LeRoundTrip(size, 4);
    assert b[size - 4..size] == Le(size, 4);
  }

  lemma Beginning(input: seq<u8>, b: seq<u8>, at: nat)
    requires b <= input && at + 4 <= |b|
    ensures U32At(input, at) == U32At(b, at)
  {
    assert input[at..at + 4] == b[at..at + 4];
  }

  /** A whole block at the front of the input is taken whole. */
  lemma Taken(input: seq<u8>, b: seq<u8>, rest: seq<u8>, front: seq<u8>, size: u32, least: nat)
    requires input == b + rest && b == front + Le(size, 4) && |b| == size && size >= least >= 12 && size % 4 == 0
    requires U32At(b, 4) == size
    ensures |input| >= 12 && R.TakeBlock(input, R.Endian.Little, least) == Ok(b) && input[size..] == rest
    ensures U32At(input, 0) == U32At(b, 0)
  {
    hide U32;
    SizeField(b, size, front);
    Beginning(input, b, 0);
    Beginning(input, b, 4);
    Beginning(input, b, size - 4);
    assert input[..size] == b;
  }

  lemma NotASection(input: seq<u8>)
    requires |input| >= 8 && U32At(input, 0) < 256
    ensures !R.IsSection(input)
  {
    var magic: seq<u8> := [10, 13, 13, 10];
    assert FromLe(magic) == 10 + 256 * FromLe(magic[1..]) && FromLe(magic[1..]) == 13 + 256 * FromLe(magic[1..][1..]);
    assert input[0..4] == input[..4];
  }

  lemma PacketBlockRead(s: R.State, number: u32, e: Event, rest: seq<u8>)
    requires Fits(e) && s.input == W.PacketBlock(number, e) + rest
    requires WellShaped(e) && s.endian.Little? && s.section
    requires R.ValidState(s) && |s.interfaces| <= TWO32 && s.interfaces == Defaults(|s.interfaces|)
             && number < |s.interfaces|
    ensures s.input != []
    ensures var t := OnPacket(s, number, e);
            R.ReadBlock(s) == if t.Err? then Err else Ok((t.value.0.(input := rest), t.value.1))
  {
    hide OnPacket;
    hide R.ReadPacket; hide W.PacketBlock; hide U32; hide WellShaped; hide W.PacketFields; hide Pack; hide Packet;
    hide R.TakeBlock;
    var b := W.PacketBlock(number, e);
    PacketBlockParts(number, e);
    PacketRead(s, number, e);
    var fields, body, total := Pack(W.PacketFields(number, e)), Packet(e) + W.Zeros(W.Padding(e)), Le(W.Total(e), 4);
    var tail := Packet(e) + (W.Zeros(W.Padding(e)) + total);
    assert b == (fields + body) + total;
    W.PacketFieldsRead(number, e, b, tail);
    Taken(s.input, b, rest, fields + body, W.Total(e), 12);
    assert U32At(s.input, 0) == U32At(b, 0);
    NotASection(s.input);
  }

  lemma BlockParts(kind: u32, data: seq<u8>)
    requires |data| % 4 == 0 && |data| + 12 < TWO32
    ensures var b := W.Block(kind, data);
            && |b| == |data| + 12 && U32At(b, 0) == kind && U32At(b, 4) == |b| && b[8..8 + |data|] == data
            && b == (Pack(B4(kind, B4(|data| + 12, End))) + data) + Le(|data| + 12, 4)
  {
    var b := W.Block(kind, data);
    var f := B4(kind, B4(|data| + 12, End));
    var tail := data + Le(|data| + 12, 4);
    assert b[0..] == Pack(f) + tail;
    Unpack(b, 0, f, tail);
    assert Reads(b, 4, f.rest, tail) && Reads(b, 8, End, tail);
    assert b[8..8 + |data|] == b[8..][..|data|];
  }

  lemma InterfaceRead(s: R.State, rest: seq<u8>)
    requires s.input == W.InterfaceBlock() + rest && s.endian.Little? && s.section
    requires |s.interfaces| < TWO32 && s.interfaces == Defaults(|s.interfaces|) && s.nextSourceId == |s.interfaces|
    ensures R.ValidState(s) && s.input != []
    ensures R.ReadBlock(s)
            == Ok((s.(input := rest, interfaces := Defaults(s.nextSourceId + 1), nextSourceId := s.nextSourceId + 1),
               None))
  {
    hide U32; hide Pack; hide R.TakeBlock; hide R.ReadInterface; hide W.InterfaceBlock; hide Defaults; hide R.IsSection;
    var b := InterfaceBytes(s.input, rest);
    NotASection(s.input);
    assert R.Endian.Little.At32(s.input, 0) == U32At(s.input, 0) == 1;
    InterfaceAdded(s, b);
    DefaultsValid(|s.interfaces|);
  }

  lemma DefaultsValid(k: nat)
    requires k <= TWO32
    ensures forall i | i in Defaults(k) :: i.units > 0
  {
  }

  lemma InterfaceBytes(input: seq<u8>, rest: seq<u8>) returns (b: seq<u8>)
    requires input == W.InterfaceBlock() + rest
    ensures |input| >= 12 && U32At(input, 0) == 1
    ensures R.TakeBlock(input, R.Endian.Little, 12) == Ok(b) && input[|b|..] == rest
    ensures |b| == 20 && R.Endian.Little.At16(b, 8) == 220
  {
    hide U32; hide Pack; hide R.TakeBlock;
    var data := W.INTERFACE_DATA;
    b := W.InterfaceBlock();
    BlockParts(1, data);
    Taken(input, b, rest, Pack(B4(1, B4(20, End))) + data, 20, 12);
    assert U32At(input, 0) == U32At(b, 0);
    var w := b[8..8 + |data|];
    assert |data| == 8 && w[..2] == [220, 0] && b[8..10] == w[..2];
    assert FromLe([220, 0]) == 220 + 256 * FromLe([220, 0][1..]);
  }

  lemma InterfaceAdded(s: R.State, b: seq<u8>)
    requires |b| == 20 && s.endian.Little? && R.Endian.Little.At16(b, 8) == 220
    requires |s.interfaces| < TWO32 && s.interfaces == Defaults(|s.interfaces|) && s.nextSourceId == |s.interfaces|
    ensures R.ReadInterface(s, b)
            == Ok(s.(interfaces := Defaults(s.nextSourceId + 1), nextSourceId := s.nextSourceId + 1))
  {
    hide U16;
    assert b[16..|b| - 4] == [];
    assert s.interfaces + [R.Interface(s.nextSourceId, 220, 1_000_000, 0)] == Defaults(s.nextSourceId + 1);
  }

  lemma SectionBytes()
    ensures var b := W.SectionBlock();
            |b| == 28 && b[..4] == [10, 13, 13, 10] && b[8..12] == [77, 60, 43, 26] && R.Endian.Little.At16(b, 12) == 1
  {
    hide U32; hide Le;
    var b, data := W.SectionBlock(), W.SECTION_DATA;
    BlockParts(0x0a0d0d0a, data);
    Wire.SectionWord();
    var w := b[8..8 + |data|];
    assert |data| == 16 && w[..4] == [77, 60, 43, 26] && w[4..6] == [1, 0];
    assert b[8..12] == w[..4] && b[12..14] == w[4..6];
    assert FromLe([1, 0]) == 1 + 256 * FromLe([1, 0][1..]);
    assert b == Le(0x0a0d0d0a, 4) + (Pack(B4(28, End)) + (data + Le(28, 4)));
    assert b[..4] == Le(0x0a0d0d0a, 4);
  }

  lemma SectionRead(rest: seq<u8>)
    ensures var s := R.Fresh(W.SectionBlock() + rest);
            s.input != [] && R.ReadBlock(s) == Ok((s.(input := rest, section := true), None))
  {
    hide Pack; hide R.TakeBlock; hide U32; hide U16; hide W.Block;
    var b, data := W.SectionBlock(), W.SECTION_DATA;
    var s := R.Fresh(b + rest);
    BlockParts(0x0a0d0d0a, data);
    SectionBytes();
    Taken(s.input, b, rest, Pack(B4(0x0a0d0d0a, B4(28, End))) + data, 28, 28);
    assert s.input[..4] == b[..4] && s.input[8..12] == b[8..12];
  }

  // ----- whole files -----

  function Interfaces(n: Numbers): nat { Max(1, |n|) }

  /** A reader inside a file the writer produced, having seen the sources numbered `n`. */
  predicate Capturing(s: R.State, n: Numbers) {
    && s.endian.Little? && s.section && |n| <= TWO32
    && s.interfaces == Defaults(Interfaces(n)) && s.nextSourceId == Interfaces(n)
  }

  ghost predicate Numbering(n: Numbers) {
    && (forall s | s in n :: n[s] < |n|)
    && (forall s, t | s in n && t in n && n[s] == n[t] :: s == t)
  }

  lemma NumberingKept(n: Numbers, source: u64)
    requires Numbering(n) && Room(n, source)
    ensures Numbering(Numbered(n, source))
    ensures |Numbered(n, source)| == if source in n then |n| else |n| + 1
  {
  }

  /** A pairing key under the reader's numbers. */
  function Renamed(n: Numbers, k: R.Key): R.Key
    requires k.0 in n
  {
    (n[k.0], k.1)
  }

  /** The reader's table `q` is the writer-side table `p` with sources renamed. */
  ghost predicate SamePairs(n: Numbers, p: map<R.Key, u32>, q: map<R.Key, u32>) {
    && |p| == |q|
    && (forall k | k in p :: k.0 in n)
    && (forall k | k in q :: k.0 < |n|)
    && (forall k: R.Key | k.0 in n :: k in p <==> Renamed(n, k) in q)
    && (forall k: R.Key | k.0 in n && k in p :: p[k] == q[Renamed(n, k)])
  }

  lemma SamePairsGrow(n: Numbers, p: map<R.Key, u32>, q: map<R.Key, u32>, source: u64)
    requires Numbering(n) && Room(n, source) && SamePairs(n, p, q)
    ensures SamePairs(Numbered(n, source), p, q)
  {
    var next := Numbered(n, source);
    forall k: R.Key | k.0 in next
      ensures k in p <==> Renamed(next, k) in q
      ensures k in p ==> p[k] == q[Renamed(next, k)]
    {
      if k.0 in n {
        assert Renamed(next, k) == Renamed(n, k);
      }
    }
  }

  lemma SamePairsStep(n: Numbers, p: map<R.Key, u32>, q: map<R.Key, u32>, e: Event)
    requires Numbering(n) && e.sourceId in n && SamePairs(n, p, q)
    ensures SamePairs(n, Unmatched(p, e), Unmatched(q, e.(sourceId := n[e.sourceId])))
  {
    var key := KeyOf(e);
    var other := Renamed(n, key);
    assert key in p <==> other in q;
    var pNext, qNext := Unmatched(p, e), Unmatched(q, e.(sourceId := n[e.sourceId]));
    forall k: R.Key | k.0 in n
      ensures k in pNext <==> Renamed(n, k) in qNext
      ensures k in pNext ==> pNext[k] == qNext[Renamed(n, k)]
    {
      assert Renamed(n, k) == other <==> k == key;
      assert k in p <==> Renamed(n, k) in q;
    }
    if e.meta.eventType != SUBMIT {
      SizeWithout(p, key);
      SizeWithout(q, other);
    }
  }

  lemma AnnouncementRead(s: R.State, n: Numbers, source: u64, tail: seq<u8>) returns (u: R.State)
    requires Capturing(s, n) && Room(n, source) && s.input == Announcement(n, source) + tail
    ensures Capturing(u, Numbered(n, source)) && R.ValidState(s) && R.ValidState(u)
    ensures u.input == tail && u.requested == s.requested && u.incomplete == s.incomplete
    ensures R.NextEvent(s) == R.NextEvent(u)
  {
    hide W.InterfaceBlock; hide R.ReadBlock;
    u := s;
    if source !in n && |n| != 0 {
      InterfaceRead(s, tail);
      u := s.(input := tail, interfaces := Defaults(s.nextSourceId + 1), nextSourceId := s.nextSourceId + 1);
    } else {
      assert s.input == tail;
    }
  }

  /** Reading one event the writer wrote, past the interface block that may precede it. */
  lemma EventRead(s: R.State, n: Numbers, p: map<R.Key, u32>, e: Event, rest: seq<u8>) returns (t: R.State)
    requires Capturing(s, n) && Numbering(n) && Room(n, e.sourceId) && SamePairs(n, p, s.requested)
    requires Fits(e) && WellShaped(e)
    requires s.input == Announcement(n, e.sourceId) + (W.PacketBlock(Numbered(n, e.sourceId)[e.sourceId], e) + rest)
    ensures R.ValidState(s)
    ensures !Admits(p, e) ==> R.NextEvent(s).Err?
    ensures var next := Numbered(n, e.sourceId);
            Admits(p, e) ==>
            && R.NextEvent(s) == Ok((t, Some(Canon(AsDeclared(p, e), next[e.sourceId], Matched(p, e)))))
            && R.ValidState(t) && t.input == rest && t.incomplete == s.incomplete
            && Capturing(t, next) && Numbering(next) && SamePairs(next, Unmatched(p, e), t.requested)
  {
    hide W.PacketBlock; hide W.InterfaceBlock; hide R.ReadBlock; hide WellShaped; hide W.Total; hide SamePairs;
    hide Numbering;
    hide Announcement; hide Canon; hide Admits; hide AsDeclared; hide Matched; hide Unmatched;
    var next := Numbered(n, e.sourceId);
    var number := next[e.sourceId];
    var packet := W.PacketBlock(number, e);
    NumberingKept(n, e.sourceId);
    NumberBound(next, e.sourceId);
    SamePairsGrow(n, p, s.requested, e.sourceId);
    SamePairsStep(next, p, s.requested, e);
    AgreesHere(next, p, s.requested, e);
    var x := e.(sourceId := number);
    var u := AnnouncementRead(s, n, e.sourceId, packet + rest);
    PacketBlockRead(u, number, e, rest);
    t := u.(input := rest, requested := Unmatched(u.requested, x));
    CanonSource(AsDeclared(p, e), AsDeclared(u.requested, x), number, Matched(p, e));
  }

  lemma NumberBound(n: Numbers, source: u64)
    requires Numbering(n) && source in n
    ensures n[source] < |n|
  {
  }

  lemma AgreesHere(n: Numbers, p: map<R.Key, u32>, q: map<R.Key, u32>, e: Event)
    requires e.sourceId in n && SamePairs(n, p, q)
    ensures var x := e.(sourceId := n[e.sourceId]);
            && (Admits(q, x) <==> Admits(p, e)) && (Matched(q, x) <==> Matched(p, e))
            && AsDeclared(q, x) == AsDeclared(p, e).(sourceId := n[e.sourceId])
  {
    assert Renamed(n, KeyOf(e)) == (n[e.sourceId], e.meta.urbId);
  }

  /** The canonical form does not depend on the source's name. */
  lemma CanonSource(e: Event, x: Event, number: u32, known: bool)
    requires x == e.(sourceId := number)
    ensures Canon(x, number, known) == Canon(e, number, known)
  {
  }

  lemma CapturingValid(s: R.State, n: Numbers)
    requires Capturing(s, n)
    ensures R.ValidState(s)
  {
  }

  lemma NothingLeft(s: R.State)
    requires R.ValidState(s)
    ensures s.input == [] ==> R.ReadAll(s) == Ok(([], s))
  {
  }

  /** From anywhere inside a written file the reader returns exactly `Returned`, and counts no loss. */
  lemma {:induction false} ReadsBack(s: R.State, n: Numbers, p: map<R.Key, u32>, es: seq<Event>)
    requires Capturing(s, n) && Numbering(n) && SamePairs(n, p, s.requested)
    requires Writable(n, es) && (forall e | e in es :: WellShaped(e))
    requires s.input == Emitted(n, es)
    ensures R.ValidState(s)
    ensures var read := R.ReadAll(s);
            if Returned(n, p, es).Err? then read.Err?
            else read.Ok? && read.value.0 == Returned(n, p, es).value && read.value.1.incomplete == s.incomplete
    decreases es
  {
    hide W.PacketBlock; hide W.InterfaceBlock; hide R.ReadBlock; hide WellShaped; hide Fits; hide SamePairs;
    hide Numbering;
    hide R.NextEvent; hide Canon; hide Unmatched; hide Matched; hide Announcement; hide Numbered; hide Defaults;
    hide Admits; hide AsDeclared;
    CapturingValid(s, n);
    if es == [] {
      NothingLeft(s);
    } else {
      var e, next := es[0], Numbered(n, es[0].sourceId);
      var t := EventRead(s, n, p, e, Emitted(next, es[1..]));
      if Admits(p, e) { ReadsBack(t, next, Unmatched(p, e), es[1..]); }
    }
  }

  // ----- writing again -----

  /** An event as read, whatever length `v` it was given, is written as before. */
  lemma SamePacket(number: u32, e: Event, known: bool, v: u32)
    requires Fits(e) && WellShaped(e) && (e.meta.eventType == SUBMIT ==> known && v == e.meta.requestedLen)
    ensures var c := Canon(e.(meta := e.meta.(requestedLen := v)), number, known);
            Fits(c) && W.PacketBlock(number, c) == W.PacketBlock(number, e)
  {
    hide Pack; hide W.Descriptors; hide Le;
    var m, c := e.meta, CanonMeta(e.meta.(requestedLen := v), known);
    assert W.Microseconds(c) == W.Microseconds(m);
    SameHeader(m, known, v, W.DataLen(e));
  }

  lemma SameHeader(m: EventMeta, known: bool, v: u32, dataLen: u32)
    requires m.eventType == SUBMIT ==> known && v == m.requestedLen
    ensures W.Header(CanonMeta(m.(requestedLen := v), known), dataLen) == W.Header(m, dataLen)
  {
    hide Pack; hide Le;
    var c := CanonMeta(m.(requestedLen := v), known);
    assert W.Microseconds(c) == W.Microseconds(m);
    assert W.HeaderStart(c, dataLen) == W.HeaderStart(m, dataLen);
    assert W.HeaderEnd(c) == W.HeaderEnd(m);
  }

  /** The second writer numbers the reader's sources as the reader did. */
  ghost predicate Identity(n: Numbers, k: nat) {
    |n| == k && (forall i | i in n :: n[i] == i < k) && (forall i: u64 | i < k :: i in n)
  }

  /** Both writers meet a source for the first time together, and give it the same number. */
  lemma IdentityStep(n: Numbers, again: Numbers, source: u64)
    requires Numbering(n) && Identity(again, |n|) && Room(n, source)
    ensures var number := Numbered(n, source)[source];
            && Room(again, number) && (source in n <==> number in again) && |again| == |n|
            && Numbered(again, number)[number] == number
            && Identity(Numbered(again, number), |Numbered(n, source)|)
  {
  }

  lemma {:induction false} SameBytes(n: Numbers, again: Numbers, p: map<R.Key, u32>, es: seq<Event>)
    requires Numbering(n) && Identity(again, |n|) && Writable(n, es) && (forall e | e in es :: WellShaped(e))
    requires Returned(n, p, es).Ok?
    ensures Writable(again, Returned(n, p, es).value)
    ensures Emitted(again, Returned(n, p, es).value) == Emitted(n, es)
    decreases es
  {
    hide W.PacketBlock; hide W.InterfaceBlock; hide WellShaped; hide W.Total; hide CanonMeta; hide Identity;
    hide Numbering;
    hide Unmatched; hide Matched; hide Fits; hide AsDeclared; hide Admits;
    if es != [] {
      var e, next := es[0], Numbered(n, es[0].sourceId);
      var c := Canon(AsDeclared(p, e), next[e.sourceId], Matched(p, e));
      NumberingKept(n, e.sourceId);
      OnlyLength(p, e);
      SamePacket(next[e.sourceId], e, Matched(p, e), AsDeclared(p, e).meta.requestedLen);
      IdentityStep(n, again, e.sourceId);
      SameBytes(next, Numbered(again, c.sourceId), Unmatched(p, e), es[1..]);
      assert Returned(n, p, es).value[1..] == Returned(next, Unmatched(p, e), es[1..]).value;
    }
  }

  /** The section header and the first interface put the reader inside the capture. */
  lemma PrefixRead(body: seq<u8>)
    ensures var file := W.SectionBlock() + W.InterfaceBlock() + body;
            var ready := R.State(body, R.Endian.Little, true, Defaults(1), 1, map[], 0);
            R.ValidState(ready) && R.ReadAll(R.Fresh(file)) == R.ReadAll(ready)
  {
    hide W.InterfaceBlock; hide W.SectionBlock; hide R.ReadBlock;
    var section, interface := W.SectionBlock(), W.InterfaceBlock();
    assert (section + interface) + body == section + (interface + body);
    var s := R.Fresh(section + (interface + body));
    SectionRead(interface + body);
    var begun := s.(input := interface + body, section := true);
    InterfaceRead(begun, body);
    var ready := begun.(input := body, interfaces := Defaults(1), nextSourceId := 1);
    assert R.NextEvent(s) == R.NextEvent(begun) == R.NextEvent(ready);
  }

  /**
   A capture written and read returns every event in its canonical form, in order, exactly when the events are
   pairable; otherwise the reader stops or returns a length that another event declared. It never counts a loss, and
   whatever it returns, written again, gives the same file byte for byte.
   */
  lemma RoundTrip(es: seq<Event>)
    requires Writable(map[], es) && (forall e | e in es :: WellShaped(e))
    ensures W.WriteAll(W.Opened(), es).Ok?
    ensures var file := W.WriteAll(W.Opened(), es).value.output;
            var read := R.ReadAll(R.Fresh(file));
            && (read.Ok? && read.value.0 == CanonAll(map[], map[], es) <==> Pairable(map[], es))
            && (read.Ok? ==>
                  && read.value.1.incomplete == 0
                  && W.WriteAll(W.Opened(), read.value.0).Ok?
                  && W.WriteAll(W.Opened(), read.value.0).value.output == file)
  {
    hide W.InterfaceBlock; hide W.SectionBlock; hide R.ReadBlock; hide WellShaped; hide Fits; hide CanonAll;
    hide Writable; hide Returned;
    hide Emitted; hide Pairable; hide R.ReadAll; hide W.WriteAll;
    var body := Emitted(map[], es);
    WriteAllEmits(W.Opened(), es);
    PrefixRead(body);
    ReadsBack(R.State(body, R.Endian.Little, true, Defaults(1), 1, map[], 0), map[], map[], es);
    ReturnedIff(map[], map[], es);
    if Returned(map[], map[], es).Ok? {
      SameBytes(map[], map[], map[], es);
      WriteAllEmits(W.Opened(), Returned(map[], map[], es).value);
    }
  }

  // ----- where an event's canonical form comes from -----

  /** The numbering once every event of the list has been written. */
  function FinalNumbers(n: Numbers, es: seq<Event>): (r: Numbers)
    requires Writable(n, es)
    ensures forall s :: s in n ==> s in r && r[s] == n[s]
    decreases es
  {
    if es == [] then n else FinalNumbers(Numbered(n, es[0].sourceId), es[1..])
  }

  /** Each event read back is the canonical form of the one written, its source renumbered without confusion. */
  lemma {:induction false} CanonAt(n: Numbers, p: map<R.Key, u32>, es: seq<Event>, i: nat)
    requires Numbering(n) && Writable(n, es) && i < |es|
    ensures Numbering(FinalNumbers(n, es)) && es[i].sourceId in FinalNumbers(n, es)
    ensures var c := CanonAll(n, p, es)[i];
            && c == Canon(es[i], FinalNumbers(n, es)[es[i].sourceId], c.requestedKnown)
            && (es[i].meta.eventType == SUBMIT ==> c.requestedKnown)
    decreases es
  {
    hide Fits; hide CanonMeta; hide Numbering;
    var e := es[0];
    var next := Numbered(n, e.sourceId);
    NumberingKept(n, e.sourceId);
    if i > 0 {
      CanonAt(next, Unmatched(p, e), es[1..], i - 1);
    } else {
      FinalNumbering(next, es[1..]);
    }
  }

  lemma {:induction false} FinalNumbering(n: Numbers, es: seq<Event>)
    requires Numbering(n) && Writable(n, es)
    ensures Numbering(FinalNumbers(n, es))
    decreases es
  {
    hide Fits; hide Numbering;
    if es != [] {
      NumberingKept(n, es[0].sourceId);
      FinalNumbering(Numbered(n, es[0].sourceId), es[1..]);
    }
  }

  /** Two events read back belong to the same URB of the same source exactly when the events written do. */
  lemma SameUrb(es: seq<Event>, i: nat, j: nat)
    requires Writable(map[], es) && i < |es| && j < |es|
    ensures var file := CanonAll(map[], map[], es);
            KeyOf(file[i]) == KeyOf(file[j]) <==> KeyOf(es[i]) == KeyOf(es[j])
  {
    CanonAt(map[], map[], es, i);
    CanonAt(map[], map[], es, j);
  }
}
