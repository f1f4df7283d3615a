/**
 The transport ABI: event metadata, ISO descriptors, and the framed records that carry them from
 the kernel to the reassembler (crates/usbscope-common and the decoders of usbscope-capture).
 */
module Records {
  import opened Bytes

  const ABI_VERSION: u16 := 1
  const CHUNK_SIZE: nat := 16 * 1024
  const MAX_RECORD_SIZE: nat := CHUNK_SIZE + 24

  const RECORD_BEGIN: u16 := 1
  const RECORD_DATA: u16 := 2
  const RECORD_ISO: u16 := 3
  const RECORD_END: u16 := 4
  const RECORD_STATS: u16 := 5

  const COMPLETE: u32 := 0
  const LOSS_RING: u32 := 1
  const LOSS_READ: u32 := 2
  const LOSS_UNSUPPORTED_BUFFER: u32 := 3

  /** Event types as their ASCII codes. */
  const SUBMIT: u8 := 83
  const COMPLETION: u8 := 67
  const SUBMIT_ERROR: u8 := 69

  /** The eight bytes of a control setup packet. */
  type Setup = s: seq<u8> | |s| == 8 witness [0, 0, 0, 0, 0, 0, 0, 0]

  datatype EventMeta = EventMeta(
    urbId: u64, timestamp: u64, bus: u16, device: u8, endpoint: u8, transferType: u8, eventType: u8,
    setupPresent: u8, hasData: u8, status: i32, requestedLen: u32, actualLen: u32, payloadLen: u32,
    interval: i32, startFrame: i32, transferFlags: u32, isoCount: u32, errorCount: i32,
    vid: u16, pid: u16, setup: Setup)

  datatype IsoDescriptor = IsoDescriptor(status: i32, offset: u32, length: u32)

  datatype Event = Event(
    sourceId: u64, meta: EventMeta, iso: seq<IsoDescriptor>, payload: seq<u8>,
    identityKnown: bool, requestedKnown: bool)

  /** A record whose header has been checked; `body` is what `size` leaves after the 24 header bytes. */
  datatype Record = Record(kind: u16, id: u64, offset: u64, body: seq<u8>)

  predicate IsoTransfer(m: EventMeta) { m.transferType == 0 }
  predicate DirectionIn(m: EventMeta) { m.endpoint >= 0x80 }

  /** Data travels with OUT submissions and IN completions. */
  predicate DataPhase(m: EventMeta) {
    (m.eventType == SUBMIT && !DirectionIn(m)) || (m.eventType == COMPLETION && DirectionIn(m))
  }

  /** What the decoder demands of metadata. */
  predicate MetaOk(m: EventMeta) {
    && (m.eventType == SUBMIT || m.eventType == COMPLETION || m.eventType == SUBMIT_ERROR)
    && m.transferType <= 3 && m.device <= 127
    && m.hasData <= 1 && m.setupPresent <= 1
    && (m.hasData != 0 || m.payloadLen == 0)
    && (m.transferType == 0 || m.isoCount == 0)
    && m.payloadLen <= m.requestedLen
  }

  // ----- metadata -----

  function MetaFields(m: EventMeta): Fields {
    B8(m.urbId, B8(m.timestamp, B2(m.bus, B1(m.device, B1(m.endpoint, B1(m.transferType, B1(m.eventType,
    B1(m.setupPresent, B1(m.hasData, B4(Unsigned(m.status), B4(m.requestedLen, B4(m.actualLen,
    B4(m.payloadLen, B4(Unsigned(m.interval), B4(Unsigned(m.startFrame), B4(m.transferFlags,
    B4(m.isoCount, B4(Unsigned(m.errorCount), B2(m.vid, B2(m.pid, End))))))))))))))))))))
  }

  function EncodeMeta(m: EventMeta): seq<u8> {
    Pack(MetaFields(m)) + m.setup
  }

  function DecodeMeta(b: seq<u8>): Result<EventMeta> {
    if |b| != 72 then Err else
    var m := EventMeta(
      U64At(b, 0), U64At(b, 8), U16At(b, 16), b[18], b[19], b[20], b[21], b[22], b[23],
      Signed(U32At(b, 24)), U32At(b, 28), U32At(b, 32), U32At(b, 36), Signed(U32At(b, 40)),
      Signed(U32At(b, 44)), U32At(b, 48), U32At(b, 52), Signed(U32At(b, 56)), U16At(b, 60),
      U16At(b, 62), b[64..72]);
    if MetaOk(m) then Ok(m) else Err
  }

  lemma MetaAt(m: EventMeta)
    ensures var b := EncodeMeta(m);
            && |b| == 72
            && U64At(b, 0) == m.urbId && U64At(b, 8) == m.timestamp && U16At(b, 16) == m.bus
            && b[18] == m.device && b[19] == m.endpoint && b[20] == m.transferType && b[21] == m.eventType
            && b[22] == m.setupPresent && b[23] == m.hasData && U32At(b, 24) == Unsigned(m.status)
            && U32At(b, 28) == m.requestedLen && U32At(b, 32) == m.actualLen && U32At(b, 36) == m.payloadLen
            && U32At(b, 40) == Unsigned(m.interval) && U32At(b, 44) == Unsigned(m.startFrame)
            && U32At(b, 48) == m.transferFlags && U32At(b, 52) == m.isoCount
            && U32At(b, 56) == Unsigned(m.errorCount) && U16At(b, 60) == m.vid && U16At(b, 62) == m.pid
            && b[64..] == m.setup
  {
    var b := EncodeMeta(m);
    var f := MetaFields(m);
    assert b[0..] == Pack(f) + m.setup;
    Unpack(b, 0, f, m.setup);
    f := f.rest; assert Reads(b, 8, f, m.setup);
    f := f.rest; assert Reads(b, 16, f, m.setup);
    f := f.rest; assert Reads(b, 18, f, m.setup);
    f := f.rest; assert Reads(b, 19, f, m.setup);
    f := f.rest; assert Reads(b, 20, f, m.setup);
    f := f.rest; assert Reads(b, 21, f, m.setup);
    f := f.rest; assert Reads(b, 22, f, m.setup);
    f := f.rest; assert Reads(b, 23, f, m.setup);
    f := f.rest; assert Reads(b, 24, f, m.setup);
    f := f.rest; assert Reads(b, 28, f, m.setup);
    f := f.rest; assert Reads(b, 32, f, m.setup);
    f := f.rest; assert Reads(b, 36, f, m.setup);
    f := f.rest; assert Reads(b, 40, f, m.setup);
    f := f.rest; assert Reads(b, 44, f, m.setup);
    f := f.rest; assert Reads(b, 48, f, m.setup);
    f := f.rest; assert Reads(b, 52, f, m.setup);
    f := f.rest; assert Reads(b, 56, f, m.setup);
    f := f.rest; assert Reads(b, 60, f, m.setup);
    f := f.rest; assert Reads(b, 62, f, m.setup);
    f := f.rest; assert Reads(b, 64, f, m.setup);
  }

  /**
   Decoding undoes encoding exactly on the metadata the decoder accepts: known event and transfer types, a USB device
   number, presence flags, no payload without data, ISO descriptors only on ISO events, no payload beyond the buffer.
   */
  lemma MetaRoundTrip(m: EventMeta)
    ensures |EncodeMeta(m)| == 72
    ensures DecodeMeta(EncodeMeta(m)) == if MetaOk(m) then Ok(m) else Err
    ensures MetaOk(m) <==>
            && m.eventType in {83, 67, 69} && m.transferType <= 3 && m.device <= 127
            && m.hasData <= 1 && m.setupPresent <= 1 && (m.hasData == 0 ==> m.payloadLen == 0)
            && (m.transferType != 0 ==> m.isoCount == 0) && m.payloadLen <= m.requestedLen
  {
    hide U16At; hide U32At; hide U64At; hide EncodeMeta;
    MetaAt(m);
    assert EncodeMeta(m)[64..72] == EncodeMeta(m)[64..];
  }

  // ----- ISO descriptors and event ends -----

  function EncodeIso(d: IsoDescriptor): seq<u8> {
    Pack(B4(Unsigned(d.status), B4(d.offset, B4(d.length, B4(0, End)))))
  }

  function DecodeIso(b: seq<u8>): IsoDescriptor
    requires |b| == 16
  {
    IsoDescriptor(Signed(U32At(b, 0)), U32At(b, 4), U32At(b, 8))
  }

  lemma IsoRoundTrip(d: IsoDescriptor)
    ensures |EncodeIso(d)| == 16 && DecodeIso(EncodeIso(d)) == d
  {
    var b := EncodeIso(d);
    var f := B4(Unsigned(d.status), B4(d.offset, B4(d.length, B4(0, End))));
    assert b[0..] == Pack(f) + [];
    Unpack(b, 0, f, []);
    assert Reads(b, 8, f.rest.rest, []);
    assert Reads(b, 12, f.rest.rest.rest, []);
    assert Reads(b, 16, End, []);
  }

  function EncodeEnd(copied: u64, descriptors: u32, reason: u32): seq<u8> {
    Pack(B8(copied, B4(descriptors, B4(reason, End))))
  }

  lemma EndRoundTrip(copied: u64, descriptors: u32, reason: u32)
    ensures var b := EncodeEnd(copied, descriptors, reason);
            |b| == 16 && U64At(b, 0) == copied && U32At(b, 8) == descriptors && U32At(b, 12) == reason
  {
    var b := EncodeEnd(copied, descriptors, reason);
    var f := B8(copied, B4(descriptors, B4(reason, End)));
    assert b[0..] == Pack(f) + [];
    Unpack(b, 0, f, []);
    assert Reads(b, 12, f.rest.rest, []);
    assert Reads(b, 16, End, []);
  }

  // ----- whole records -----

  function HeaderFields(r: Record): Fields
    requires |r.body| <= CHUNK_SIZE
  {
    B2(ABI_VERSION, B2(r.kind, B4(24 + |r.body|, B8(r.id, B8(r.offset, End)))))
  }

  function Encode(r: Record): seq<u8>
    requires |r.body| <= CHUNK_SIZE
  {
    Pack(HeaderFields(r)) + r.body
  }

  /** The header checks at the top of `push`; bytes past the declared size are ignored. */
  function Parse(b: seq<u8>): Result<Record> {
    if |b| < 24 || U16At(b, 0) != ABI_VERSION then Err else
    var size := U32At(b, 4);
    if size < 24 || size > MAX_RECORD_SIZE || size > |b| then Err else
    Ok(Record(U16At(b, 2), U64At(b, 8), U64At(b, 16), b[24..size]))
  }

  /** A published record is read back exactly, whatever unused reservation bytes follow it. */
  lemma RecordRoundTrip(r: Record, padding: seq<u8>)
    requires |r.body| <= CHUNK_SIZE
    ensures |Encode(r)| == 24 + |r.body|
    ensures Parse(Encode(r) + padding) == Ok(r)
    ensures U32At(Encode(r), 4) == |Encode(r)|
  {
    HeaderAt(r, Encode(r) + padding, padding);
    assert Encode(r) + [] == Encode(r);
    HeaderAt(r, Encode(r), []);
  }

  lemma HeaderAt(r: Record, b: seq<u8>, padding: seq<u8>)
    requires |r.body| <= CHUNK_SIZE && b == Encode(r) + padding
    ensures |b| == 24 + |r.body| + |padding|
    ensures U16At(b, 0) == ABI_VERSION && U16At(b, 2) == r.kind && U32At(b, 4) == 24 + |r.body|
    ensures U64At(b, 8) == r.id && U64At(b, 16) == r.offset && b[24..24 + |r.body|] == r.body
  {
    var f := HeaderFields(r);
    var tail := r.body + padding;
    assert b[0..] == Pack(f) + tail;
    Unpack(b, 0, f, tail);
    assert Reads(b, 4, f.rest.rest, tail);
    assert Reads(b, 8, f.rest.rest.rest, tail);
    assert Reads(b, 16, f.rest.rest.rest.rest, tail);
    assert Reads(b, 24, End, tail);
    assert b[24..] == tail;
    assert b[24..24 + |r.body|] == b[24..][..|r.body|];
  }
}
