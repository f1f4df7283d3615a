/** The binary formats byte by byte: the ring's records, and the pseudoheader and blocks of pcapng files. */
module Wire {
  import opened Bytes
  import opened Records
  import Arithmetic
  import R = PcapngRead
  import W = Pcapng

  // ----- numbers, lowest byte first -----

  function Low2(b: seq<u8>, at: nat): nat requires at + 2 <= |b| { b[at] as int + 0x100 * (b[at + 1] as int) }
  function Low4(b: seq<u8>, at: nat): nat requires at + 4 <= |b| { Low2(b, at) + 0x1_0000 * Low2(b, at + 2) }
  function Low8(b: seq<u8>, at: nat): nat requires at + 8 <= |b| { Low4(b, at) + 0x1_0000_0000 * Low4(b, at + 4) }

  /** Four bytes as a signed number. */
  function Low4Signed(b: seq<u8>, at: nat): int
    requires at + 4 <= |b|
  {
    if b[at + 3] < 128 then Low4(b, at) else Low4(b, at) - 0x1_0000_0000
  }

  lemma NumbersAre(b: seq<u8>, at: nat)
    ensures at + 2 <= |b| ==> U16At(b, at) == Low2(b, at)
    ensures at + 4 <= |b| ==> U32At(b, at) == Low4(b, at) && Signed(U32At(b, at)) == Low4Signed(b, at)
    ensures at + 8 <= |b| ==> U64At(b, at) == Low8(b, at)
  {
    if at + 2 <= |b| { R.TwoDigits(b[at..at + 2]); }
    if at + 4 <= |b| { R.FourDigits(b[at..at + 4]); }
    if at + 8 <= |b| {
      R.Halves(b[at..at + 8]);
      assert b[at..at + 8][..4] == b[at..at + 4] && b[at..at + 8][4..] == b[at + 4..at + 8];
      R.FourDigits(b[at..at + 4]); R.FourDigits(b[at + 4..at + 8]);
    }
  }

  lemma Long(b: seq<u8>, at: nat)
    requires at + 4 <= |b|
    ensures U32At(b, at) == Low4(b, at)
  {
    NumbersAre(b, at);
  }

  lemma SignedBack(x: i32)
    ensures Signed(Unsigned(x)) == x
  {
  }

  // ----- ring records -----

  /** The metadata of a BEGIN record, at the offsets of the transport ABI. */
  lemma MetaOnWire(m: EventMeta)
    ensures var b := EncodeMeta(m);
            && |b| == 72
            && Low8(b, 0) == m.urbId && Low8(b, 8) == m.timestamp && Low2(b, 16) == m.bus
            && b[18] == m.device && b[19] == m.endpoint && b[20] == m.transferType && b[21] == m.eventType
            && b[22] == m.setupPresent && b[23] == m.hasData && Low4Signed(b, 24) == m.status
            && Low4(b, 28) == m.requestedLen && Low4(b, 32) == m.actualLen && Low4(b, 36) == m.payloadLen
            && Low4Signed(b, 40) == m.interval && Low4Signed(b, 44) == m.startFrame
            && Low4(b, 48) == m.transferFlags && Low4(b, 52) == m.isoCount && Low4Signed(b, 56) == m.errorCount
            && Low2(b, 60) == m.vid && Low2(b, 62) == m.pid && b[64..] == m.setup
  {
    hide U16At; hide U32At; hide U64At; hide Low2; hide Low4; hide Low8; hide Low4Signed; hide EncodeMeta;
    var b := EncodeMeta(m);
    MetaAt(m);
    assert |b| == 72;
    NumbersAre(b, 0); NumbersAre(b, 8); NumbersAre(b, 16); NumbersAre(b, 24); NumbersAre(b, 28); NumbersAre(b, 32);
    NumbersAre(b, 36); NumbersAre(b, 40); NumbersAre(b, 44); NumbersAre(b, 48); NumbersAre(b, 52); NumbersAre(b, 56);
    NumbersAre(b, 60); NumbersAre(b, 62);
    SignedBack(m.status); SignedBack(m.interval); SignedBack(m.startFrame); SignedBack(m.errorCount);
  }

  /** An ISO record's body: status, offset and length, then four zero bytes. */
  lemma IsoOnWire(d: IsoDescriptor)
    ensures var b := EncodeIso(d);
            && |b| == 16 && Low4Signed(b, 0) == d.status && Low4(b, 4) == d.offset && Low4(b, 8) == d.length
            && Low4(b, 12) == 0
  {
    var b := EncodeIso(d);
    var f := B4(Unsigned(d.status), B4(d.offset, B4(d.length, B4(0, End))));
    assert b[0..] == Pack(f) + [];
    Unpack(b, 0, f, []);
    assert Reads(b, 8, f.rest.rest, []);
    assert Reads(b, 12, f.rest.rest.rest, []);
    assert Reads(b, 16, End, []);
    NumbersAre(b, 0); NumbersAre(b, 4); NumbersAre(b, 8); NumbersAre(b, 12);
  }

  lemma EndOnWire(copied: u64, descriptors: u32, reason: u32)
    ensures var b := EncodeEnd(copied, descriptors, reason);
            |b| == 16 && Low8(b, 0) == copied && Low4(b, 8) == descriptors && Low4(b, 12) == reason
  {
    EndRoundTrip(copied, descriptors, reason);
    var b := EncodeEnd(copied, descriptors, reason);
    NumbersAre(b, 0); NumbersAre(b, 8); NumbersAre(b, 12);
  }

  /** The header before every body: version 1, kind, size with header, id and offset. */
  lemma RecordOnWire(r: Record)
    requires |r.body| <= 16384
    ensures var b := Encode(r);
            && |b| == 24 + |r.body| && Low2(b, 0) == 1 && Low2(b, 2) == r.kind && Low4(b, 4) == 24 + |r.body|
            && Low8(b, 8) == r.id && Low8(b, 16) == r.offset && b[24..] == r.body
  {
    hide U16At; hide U32At; hide U64At; hide Encode;
    var b := Encode(r);
    assert b + [] == b;
    HeaderAt(r, b, []);
    NumbersAre(b, 0); NumbersAre(b, 2); NumbersAre(b, 4); NumbersAre(b, 8); NumbersAre(b, 16);
    assert b[24..24 + |r.body|] == b[24..];
  }

  /** Which bytes are taken for a record: version 1 and a size of 24 to 16408 that is all there; the rest is ignored. */
  lemma RecordTaken(b: seq<u8>)
    ensures Parse(b).Ok? <==> |b| >= 24 && Low2(b, 0) == 1 && 24 <= Low4(b, 4) <= 16408 && Low4(b, 4) <= |b|
    ensures Parse(b).Ok? ==>
              var r := Parse(b).value;
              r.kind == Low2(b, 2) && r.id == Low8(b, 8) && r.offset == Low8(b, 16) && r.body == b[24..Low4(b, 4)]
  {
    hide U16At; hide U32At; hide U64At; hide Low2; hide Low4; hide Low8;
    NumbersAre(b, 0); NumbersAre(b, 2); NumbersAre(b, 4); NumbersAre(b, 8); NumbersAre(b, 16);
  }

  /** Which bodies begin an event, and with what metadata. */
  lemma MetaTaken(b: seq<u8>)
    ensures DecodeMeta(b).Ok? <==>
            && |b| == 72 && b[21] in {83, 67, 69} && b[20] <= 3 && b[18] <= 127 && b[22] <= 1 && b[23] <= 1
            && (b[23] == 0 ==> Low4(b, 36) == 0) && (b[20] != 0 ==> Low4(b, 52) == 0) && Low4(b, 36) <= Low4(b, 28)
    ensures DecodeMeta(b).Ok? ==>
              var m := DecodeMeta(b).value;
              && m.urbId == Low8(b, 0) && m.timestamp == Low8(b, 8) && m.bus == Low2(b, 16)
              && m.device == b[18] && m.endpoint == b[19] && m.transferType == b[20] && m.eventType == b[21]
              && m.setupPresent == b[22] && m.hasData == b[23] && m.status == Low4Signed(b, 24)
              && m.requestedLen == Low4(b, 28) && m.actualLen == Low4(b, 32) && m.payloadLen == Low4(b, 36)
              && m.interval == Low4Signed(b, 40) && m.startFrame == Low4Signed(b, 44)
              && m.transferFlags == Low4(b, 48) && m.isoCount == Low4(b, 52) && m.errorCount == Low4Signed(b, 56)
              && m.vid == Low2(b, 60) && m.pid == Low2(b, 62) && m.setup == b[64..]
  {
    hide U16At; hide U32At; hide U64At; hide Low2; hide Low4; hide Low8; hide Low4Signed;
    NumbersAre(b, 0); NumbersAre(b, 8); NumbersAre(b, 16); NumbersAre(b, 24); NumbersAre(b, 28); NumbersAre(b, 32);
    NumbersAre(b, 36); NumbersAre(b, 40); NumbersAre(b, 44); NumbersAre(b, 48); NumbersAre(b, 52); NumbersAre(b, 56);
    NumbersAre(b, 60); NumbersAre(b, 62);
  }

  // ----- pcapng blocks as written -----

  lemma Seconds(t: nat)
    ensures t / 1000 / 1_000_000 == t / 1_000_000_000
  {
  }

  /** The 64-byte pseudoheader of LINKTYPE_USB_LINUX_MMAPPED. */
  lemma PseudoheaderOnWire(m: EventMeta, dataLen: u32)
    ensures var b := W.Header(m, dataLen);
            && |b| == 64
            && Low8(b, 0) == m.urbId && b[8] == m.eventType && b[9] == m.transferType && b[10] == m.endpoint
            && b[11] == m.device && Low2(b, 12) == m.bus
            && b[14] == (if m.setupPresent != 0 then 0 else 45)
            && b[15] == (if m.hasData != 0 then 0 else if m.endpoint >= 128 then 60 else 62)
            && Low8(b, 16) == m.timestamp / 1_000_000_000 && Low4(b, 24) == m.timestamp / 1000 % 1_000_000
            && Low4Signed(b, 28) == m.status
            && Low4(b, 32) == (if m.eventType == 83 then m.requestedLen else m.actualLen) && Low4(b, 36) == dataLen
            && b[40..48] == W.HeaderMiddle(m)
            && Low4Signed(b, 48) == m.interval && Low4Signed(b, 52) == m.startFrame
            && Low4(b, 56) == m.transferFlags && Low4(b, 60) == m.isoCount
  {
    hide U16At; hide U32At; hide U64At; hide Low2; hide Low4; hide Low8; hide Low4Signed; hide Pack;
    hide W.HeaderMiddle; hide W.HeaderStart; hide W.HeaderEnd;
    var b, start, middle, end := W.Header(m, dataLen), Pack(W.HeaderStart(m, dataLen)), W.HeaderMiddle(m),
      Pack(W.HeaderEnd(m));
    W.HeaderSize(m, dataLen);
    assert b == start + (middle + end) && end + [] == end;
    W.HeaderStartRead(m, dataLen, b, middle + end);
    assert b[40..48] == middle && b[48..] == end;
    W.HeaderEndRead(m, b[48..], []);
    EndFields(b);
    NumbersAre(b, 0); NumbersAre(b, 12); NumbersAre(b, 16); NumbersAre(b, 24); NumbersAre(b, 28); NumbersAre(b, 32);
    NumbersAre(b, 36); NumbersAre(b, 48); NumbersAre(b, 52); NumbersAre(b, 56); NumbersAre(b, 60);
    Seconds(m.timestamp);
    SignedBack(m.status); SignedBack(m.interval); SignedBack(m.startFrame);
  }

  lemma EndFields(b: seq<u8>)
    requires |b| == 64
    ensures U32At(b[48..], 0) == U32At(b, 48) && U32At(b[48..], 4) == U32At(b, 52)
    ensures U32At(b[48..], 8) == U32At(b, 56) && U32At(b[48..], 12) == U32At(b, 60)
  {
    assert b[48..][0..4] == b[48..52] && b[48..][4..8] == b[52..56];
    assert b[48..][8..12] == b[56..60] && b[48..][12..16] == b[60..64];
  }

  /** Bytes 40 to 47: ISO totals, or the setup packet, or zeros. */
  lemma MiddleOnWire(m: EventMeta)
    ensures var b := W.HeaderMiddle(m);
            && (m.transferType == 0 ==> Low4Signed(b, 0) == m.errorCount && Low4(b, 4) == m.isoCount)
            && (m.transferType != 0 && m.setupPresent != 0 ==> b == m.setup)
            && (m.transferType != 0 && m.setupPresent == 0 ==> b == [0, 0, 0, 0, 0, 0, 0, 0])
  {
    hide Le;
    var b := W.HeaderMiddle(m);
    if m.transferType == 0 {
      Pow256Values();
      LeRoundTrip(Unsigned(m.errorCount), 4);
      LeRoundTrip(m.isoCount, 4);
      assert b[0..4] == Le(Unsigned(m.errorCount), 4) && b[4..8] == Le(m.isoCount, 4);
      NumbersAre(b, 0); NumbersAre(b, 4);
      SignedBack(m.errorCount);
    }
  }

  /** An Enhanced Packet Block: its length first and last, microsecond ticks in two halves, packet lengths. */
  lemma PacketOnWire(interface: u32, e: Event)
    requires W.Total(e) < TWO32 && e.meta.payloadLen <= |e.payload|
    ensures var b, caplen := W.PacketBlock(interface, e), 64 + 16 * |e.iso| + e.meta.payloadLen;
            && |b| == 32 + caplen + (4 - caplen % 4) % 4 && |b| % 4 == 0
            && Low4(b, 0) == 6 && Low4(b, 4) == |b| && Low4(b, |b| - 4) == |b| && Low4(b, 8) == interface
            && Low4(b, 16) + 0x1_0000_0000 * Low4(b, 12) == e.meta.timestamp / 1000
            && Low4(b, 20) == caplen && Low4(b, 24) == caplen
  {
    hide *;
    var b := W.PacketBlock(interface, e);
    PacketWords(interface, e);
    PacketLengths(e);
    Long(b, 0); Long(b, 4); Long(b, 8); Long(b, 12); Long(b, 16); Long(b, 20); Long(b, 24); Long(b, |b| - 4);
    TwoHalves(e.meta.timestamp);
  }

  lemma PacketLengths(e: Event)
    ensures W.CapLen(e) == 64 + 16 * |e.iso| + e.meta.payloadLen
    ensures W.Total(e) == 32 + W.CapLen(e) + (4 - W.CapLen(e) % 4) % 4
  {
  }

  lemma PacketWords(interface: u32, e: Event)
    requires W.Total(e) < TWO32 && e.meta.payloadLen <= |e.payload|
    ensures var b := W.PacketBlock(interface, e);
            && 32 <= |b| == W.Total(e) && |b| % 4 == 0
            && U32At(b, 0) == 6 && U32At(b, 4) == |b| && U32At(b, |b| - 4) == |b| && U32At(b, 8) == interface
            && U32At(b, 12) == e.meta.timestamp / 1000 / TWO32 && U32At(b, 16) == e.meta.timestamp / 1000 % TWO32
            && U32At(b, 20) == W.CapLen(e) && U32At(b, 24) == W.CapLen(e)
  {
    hide U32At; hide Pack; hide W.PacketFields; hide Le; hide W.PacketBlock; hide W.Header; hide W.Descriptors;
    var b := W.PacketBlock(interface, e);
    W.PacketSize(interface, e);
    var tail := PacketTail(interface, e);
    W.PacketFieldsRead(interface, e, b, tail);
    BodyOnWire(interface, e);
    LastWord(b, W.Total(e));
  }

  lemma TwoHalves(t: u64)
    ensures t / 1000 % TWO32 + 0x1_0000_0000 * (t / 1000 / TWO32) == t / 1000
  {
  }

  lemma PacketTail(interface: u32, e: Event) returns (tail: seq<u8>)
    requires W.Total(e) < TWO32 && e.meta.payloadLen <= |e.payload|
    ensures W.PacketBlock(interface, e) == Pack(W.PacketFields(interface, e)) + tail
  {
    tail := W.PacketBody(e);
  }

  /** Behind its fields a packet block holds the pseudoheader, the descriptors, the payload, padding and its length. */
  lemma BodyOnWire(interface: u32, e: Event)
    requires W.Total(e) < TWO32 && e.meta.payloadLen <= |e.payload|
    ensures var b, caplen := W.PacketBlock(interface, e), 64 + 16 * |e.iso| + e.meta.payloadLen;
            && 96 + 16 * |e.iso| + e.meta.payloadLen <= |b|
            && b[28..92] == W.Header(e.meta, 16 * |e.iso| + e.meta.payloadLen)
            && b[92..92 + 16 * |e.iso|] == W.Descriptors(e.iso)
            && b[92 + 16 * |e.iso|..28 + caplen] == e.payload[..e.meta.payloadLen]
            && b[|b| - 4..] == Le(W.Total(e), 4)
  {
    hide Pack; hide W.Header; hide W.Descriptors; hide W.PacketFields; hide Le; hide U32;
    var b := W.PacketBlock(interface, e);
    var header, iso := W.Header(e.meta, W.DataLen(e)), W.Descriptors(e.iso);
    var data, zeros, total := e.payload[..e.meta.payloadLen], W.Zeros(W.Padding(e)), Le(W.Total(e), 4);
    W.HeaderSize(e.meta, W.DataLen(e));
    W.DescriptorsSize(e.iso);
    W.PacketFieldsRead(interface, e, b, W.PacketBody(e));
    Pieces(b, header, iso, data, zeros, total);
  }

  lemma Pieces<T>(b: seq<T>, header: seq<T>, iso: seq<T>, data: seq<T>, zeros: seq<T>, total: seq<T>)
    requires |b| >= 28 && b[28..] == header + (iso + (data + (zeros + total)))
    ensures var i := 28 + |header|;
            && |b| == i + |iso| + |data| + |zeros| + |total|
            && b[28..i] == header && b[i..i + |iso|] == iso
            && b[i + |iso|..i + |iso| + |data|] == data && b[|b| - |total|..] == total
  {
    var i := 28 + |header|;
    assert b[28..][..|header|] == header;
    assert b[28..][|header|..][..|iso|] == iso && b[28..][|header|..] == b[i..];
    assert b[i..][..|iso|] == b[i..i + |iso|];
    assert b[28..][|header| + |iso|..][..|data|] == data;
    assert b[28..][|header| + |iso| + |data| + |zeros|..] == total;
    assert b[28..][|header| + |iso|..] == b[i + |iso|..];
    assert b[i + |iso|..][..|data|] == b[i + |iso|..i + |iso| + |data|];
  }

  lemma LastWord(b: seq<u8>, size: u32)
    requires |b| >= 4 && b[|b| - 4..] == Le(size, 4)
    ensures U32At(b, |b| - 4) == size
  {
    Pow256Values();
    LeRoundTrip(size, 4);
    assert b[|b| - 4..|b| - 4 + 4] == b[|b| - 4..];
  }

  /** Each descriptor sits at its place behind the pseudoheader. */
  lemma {:induction false} DescriptorsOnWire(iso: seq<IsoDescriptor>, i: nat)
    requires i < |iso|
    ensures |W.Descriptors(iso)| == 16 * |iso| && W.Descriptors(iso)[16 * i..16 * i + 16] == EncodeIso(iso[i])
  {
    W.DescriptorsSize(iso);
    IsoRoundTrip(iso[0]);
    W.DescriptorsSize(iso[1..]);
    var b, rest := W.Descriptors(iso), W.Descriptors(iso[1..]);
    if i == 0 {
      assert b[0..16] == EncodeIso(iso[0]);
    } else {
      DescriptorsOnWire(iso[1..], i - 1);
      assert b[16..] == rest;
      assert b[16 * i..16 * i + 16] == rest[16 * (i - 1)..16 * (i - 1) + 16];
    }
  }

  lemma SmallWord(n: u8)
    ensures Le(n, 4) == [n, 0, 0, 0]
  {
    assert Le(0, 1) == [0];
    assert Le(0, 2) == [0] + Le(0, 1);
    assert Le(0, 3) == [0] + Le(0, 2);
    assert n as int / 256 == 0 && n as int % 256 == n;
    assert Le(n, 4) == [n] + Le(0, 3);
  }

  lemma SectionWord()
    ensures Le(0x0a0d0d0a, 4) == [10, 13, 13, 10]
  {
    var magic: nat := 0x0a0d0d0a;
    assert Le(10, 1) == [10];
    assert Le(magic / 0x1_0000, 2) == [13] + Le(10, 1);
    assert Le(magic / 0x100, 3) == [13] + Le(magic / 0x1_0000, 2);
  }

  lemma SectionStart()
    ensures W.SectionBlock() == [10, 13, 13, 10, 28, 0, 0, 0, 77, 60, 43, 26, 1, 0, 0, 0,
                                 255, 255, 255, 255, 255, 255, 255, 255, 28, 0, 0, 0]
  {
    hide Le; hide Pack; hide W.Block;
    SmallWord(28);
    SectionWord();
    SectionIs();
    Framed(0x0a0d0d0a, W.SECTION_DATA);
  }

  lemma SectionIs()
    ensures W.SectionBlock() == W.Block(0x0a0d0d0a, W.SECTION_DATA) && |W.SECTION_DATA| == 16
    ensures W.SECTION_DATA == [77, 60, 43, 26, 1, 0, 0, 0, 255, 255, 255, 255, 255, 255, 255, 255]
    ensures W.InterfaceBlock() == W.Block(1, W.INTERFACE_DATA) && |W.INTERFACE_DATA| == 8
    ensures W.INTERFACE_DATA == [220, 0, 0, 0, 0, 0, 0, 0]
  {
  }

  lemma InterfaceStart()
    ensures W.InterfaceBlock() == [1, 0, 0, 0, 20, 0, 0, 0, 220, 0, 0, 0, 0, 0, 0, 0, 20, 0, 0, 0]
  {
    hide Le; hide Pack; hide W.Block;
    SmallWord(1); SmallWord(20);
    SectionIs();
    Framed(1, W.INTERFACE_DATA);
  }

  /**
   Every file starts with the same 48 bytes: a little-endian section header of version 1.0 and unknown length, and an
   interface of link type 220 without options.
   */
  lemma FileStart()
    ensures W.Opened().output
            == [10, 13, 13, 10, 28, 0, 0, 0, 77, 60, 43, 26, 1, 0, 0, 0, 255, 255, 255, 255, 255, 255, 255, 255,
                28, 0, 0, 0]
               + [1, 0, 0, 0, 20, 0, 0, 0, 220, 0, 0, 0, 0, 0, 0, 0, 20, 0, 0, 0]
  {
    hide W.SectionBlock; hide W.InterfaceBlock;
    SectionStart();
    InterfaceStart();
  }

  lemma Framed(kind: u32, data: seq<u8>)
    requires |data| + 12 < TWO32
    ensures W.Block(kind, data) == Le(kind, 4) + Le(|data| + 12, 4) + data + Le(|data| + 12, 4)
  {
    hide Le;
    var f := B4(kind, B4(|data| + 12, End));
    assert Pack(f.rest) == Le(|data| + 12, 4) + [];
    assert Pack(f) == Le(kind, 4) + Pack(f.rest);
  }
}
