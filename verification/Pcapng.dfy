/**
 The pcapng writer: section header, one interface per capture source, and one Enhanced Packet Block per
 event (sections 4.1 to 4.3 of draft-ietf-opsawg-pcapng), each packet a LINKTYPE_USB_LINUX_MMAPPED (220)
 pseudoheader followed by ISO descriptors and payload.
 */
module Pcapng {
  import opened Bytes
  import opened Records

  function Block(kind: u32, data: seq<u8>): seq<u8>
    requires |data| + 12 < TWO32
  {
    Pack(B4(kind, B4(|data| + 12, End))) + (data + Le(|data| + 12, 4))
  }

  const SECTION_DATA: seq<u8> := [0x4d, 0x3c, 0x2b, 0x1a, 1, 0, 0, 0, 255, 255, 255, 255, 255, 255, 255, 255]
  const INTERFACE_DATA: seq<u8> := [220, 0, 0, 0, 0, 0, 0, 0]

  function SectionBlock(): seq<u8> { Block(0x0a0d0d0a, SECTION_DATA) }
  function InterfaceBlock(): seq<u8> { Block(1, INTERFACE_DATA) }

  function Zeros(n: nat): (z: seq<u8>)
    ensures |z| == n && forall i :: 0 <= i < n ==> z[i] == 0
  {
    seq<u8>(n, i => 0)
  }

  // ----- one packet -----

  function Microseconds(m: EventMeta): nat { m.timestamp / 1000 }

  function UrbLength(m: EventMeta): u32 { if m.eventType == SUBMIT then m.requestedLen else m.actualLen }

  function SetupFlag(m: EventMeta): u8 { if m.setupPresent != 0 then 0 else 45 }

  function DataFlag(m: EventMeta): u8 {
    if m.hasData != 0 then 0 else if DirectionIn(m) then 60 else 62
  }

  function HeaderStart(m: EventMeta, dataLen: u32): Fields {
    B8(m.urbId, B1(m.eventType, B1(m.transferType, B1(m.endpoint, B1(m.device, B2(m.bus,
    B1(SetupFlag(m), B1(DataFlag(m), B8(Microseconds(m) / 1_000_000, B4(Microseconds(m) % 1_000_000,
    B4(Unsigned(m.status), B4(UrbLength(m), B4(dataLen, End)))))))))))))
  }

  /** The eight bytes that hold ISO totals or the control setup packet, else zeros. */
  function HeaderMiddle(m: EventMeta): (b: seq<u8>)
    ensures |b| == 8
  {
    if IsoTransfer(m) then Le(Unsigned(m.errorCount), 4) + Le(m.isoCount, 4)
    else if m.setupPresent != 0 then m.setup
    else Zeros(8)
  }

  function HeaderEnd(m: EventMeta): Fields {
    B4(Unsigned(m.interval), B4(Unsigned(m.startFrame), B4(m.transferFlags, B4(m.isoCount, End))))
  }

  function Header(m: EventMeta, dataLen: u32): seq<u8> {
    Pack(HeaderStart(m, dataLen)) + HeaderMiddle(m) + Pack(HeaderEnd(m))
  }

  function Descriptors(iso: seq<IsoDescriptor>): (b: seq<u8>) {
    if iso == [] then [] else EncodeIso(iso[0]) + Descriptors(iso[1..])
  }

  function DataLen(e: Event): nat { 16 * |e.iso| + e.meta.payloadLen }
  function CapLen(e: Event): nat { 64 + DataLen(e) }
  function Padding(e: Event): nat { (4 - CapLen(e) % 4) % 4 }
  function Total(e: Event): nat { CapLen(e) + Padding(e) + 32 }

  function PacketFields(interface: u32, e: Event): Fields
    requires Total(e) < TWO32
  {
    var ts := Microseconds(e.meta);
    B4(6, B4(Total(e), B4(interface, B4(ts / TWO32, B4(ts % TWO32, B4(CapLen(e), B4(CapLen(e), End)))))))
  }

  /** Everything after the packet fields. */
  function PacketBody(e: Event): seq<u8>
    requires Total(e) < TWO32 && e.meta.payloadLen <= |e.payload|
  {
    Header(e.meta, DataLen(e))
    + (Descriptors(e.iso) + (e.payload[..e.meta.payloadLen] + (Zeros(Padding(e)) + Le(Total(e), 4))))
  }

  function PacketBlock(interface: u32, e: Event): seq<u8>
    requires Total(e) < TWO32 && e.meta.payloadLen <= |e.payload|
  {
    Pack(PacketFields(interface, e)) + PacketBody(e)
  }

  // ----- the writer -----

  datatype WriterState = WriterState(output: seq<u8>, interfaces: map<u64, u32>)

  function Opened(): WriterState { WriterState(SectionBlock() + InterfaceBlock(), map[]) }

  /** The index for a capture source, and the interface block that announces it if it is a later one. */
  function Allocate(s: WriterState, source: u64): Result<(WriterState, u32)> {
    if source in s.interfaces then Ok((s, s.interfaces[source]))
    else if |s.interfaces| >= TWO32 then Err
    else
      var index := |s.interfaces|;
      Ok((WriterState(s.output + (if index != 0 then InterfaceBlock() else []), s.interfaces[source := index]), index))
  }

  function WriteEvent(s: WriterState, e: Event): Result<WriterState> {
    var a :- Allocate(s, e.sourceId);
    if Total(e) >= TWO32 || |e.payload| < e.meta.payloadLen then Err
    else Ok(a.0.(output := a.0.output + PacketBlock(a.1, e)))
  }

  function WriteAll(s: WriterState, es: seq<Event>): Result<WriterState>
    decreases es
  {
    if es == [] then Ok(s) else
    var t :- WriteEvent(s, es[0]);
    WriteAll(t, es[1..])
  }

  /** Writing a list and then one more event is writing the longer list. */
  lemma {:induction false} WriteAllAppend(s: WriterState, es: seq<Event>, e: Event)
    requires WriteAll(s, es).Ok?
    ensures WriteAll(s, es + [e]) == WriteEvent(WriteAll(s, es).value, e)
    decreases es
  {
    hide WriteEvent;
    if es == [] {
      assert [] + [e] == [e] && [e][1..] == [];
    } else {
      WriteAllAppend(WriteEvent(s, es[0]).value, es[1..], e);
      assert (es + [e])[1..] == es[1..] + [e];
    }
  }

  method CopyInto(a: array<u8>, at: nat, src: seq<u8>)
    requires at + |src| <= a.Length
    modifies a
    ensures a[..at + |src|] == old(a[..at]) + src
    ensures forall j :: at + |src| <= j < a.Length ==> a[j] == old(a[j])
  {
    for i := 0 to |src|
      invariant a[..at + i] == old(a[..at]) + src[..i]
      invariant forall j :: at + i <= j < a.Length ==> a[j] == old(a[j])
    {
      a[at + i] := src[i];
      assert src[..i + 1] == src[..i] + [src[i]];
      assert a[..at + i + 1] == a[..at + i] + [src[i]];
    }
    assert src[..|src|] == src;
  }

  /** Writes the next piece of `whole`; `rest` is what still has to follow. */
  method Put(a: array<u8>, at: nat, src: seq<u8>, ghost rest: seq<u8>, ghost whole: seq<u8>)
    requires at + |src| <= a.Length && a[..at] + (src + rest) == whole
    modifies a
    ensures a[..at + |src|] + rest == whole
    ensures forall j :: at + |src| <= j < a.Length ==> a[j] == old(a[j])
  {
    CopyInto(a, at, src);
    assert (old(a[..at]) + src) + rest == old(a[..at]) + (src + rest);
  }

  class Writer {
    var output: seq<u8>
    var bytes: nat
    var interfaces: map<u64, u32>

    ghost predicate Valid()
      reads this
    {
      bytes == |output|
    }

    ghost function Model(): WriterState
      reads this
    {
      WriterState(output, interfaces)
    }

    constructor ()
      ensures Valid() && Model() == Opened() && bytes == 48
    {
      output := SectionBlock() + InterfaceBlock();
      bytes := 48;
      interfaces := map[];
      new;
      assert |SectionBlock()| == 28 && |InterfaceBlock()| == 20;
    }

    /** The index for a source, announcing every interface but the first, which the header already did. */
    method AllocateInterface(source: u64) returns (r: Result<u32>)
      requires Valid()
      modifies this
      ensures r.Ok? <==> Allocate(old(Model()), source).Ok?
      ensures r.Ok? ==> Valid() && Allocate(old(Model()), source) == Ok((Model(), r.value))
    {
      if source in interfaces { return Ok(interfaces[source]); }
      if |interfaces| >= TWO32 { return Err; }
      var index: u32 := |interfaces|;
      if index != 0 {
        output := output + InterfaceBlock();
        InterfaceBlockSize();
        bytes := bytes + 20;
      } else {
        assert output + [] == output;
      }
      interfaces := interfaces[source := index];
      return Ok(index);
    }

    method WritePacket(index: u32, e: Event) returns (ok: bool)
      requires Valid()
      modifies this`output, this`bytes
      ensures ok <==> Total(e) < TWO32 && e.meta.payloadLen <= |e.payload|
      ensures ok ==> Valid() && output == old(output) + PacketBlock(index, e)
    {
      if Total(e) >= TWO32 { return false; }
      ghost var before := output;
      output := output + Pack(PacketFields(index, e));
      var header := FillHeader(e.meta, DataLen(e));
      output := output + header;
      output := output + Descriptors(e.iso);
      if |e.payload| < e.meta.payloadLen { return false; }
      output := output + e.payload[..e.meta.payloadLen];
      output := output + Zeros(Padding(e));
      output := output + Le(Total(e), 4);
      bytes := bytes + Total(e);
      PacketPieces(before, index, e);
      PacketSize(index, e);
      return true;
    }

    /** The bytes written so far are always counted exactly; an error ends the capture. */
    method Write(e: Event) returns (ok: bool)
      requires Valid()
      modifies this
      ensures ok <==> WriteEvent(old(Model()), e).Ok?
      ensures ok ==> Valid() && Model() == WriteEvent(old(Model()), e).value
    {
      hide PacketBlock;
      hide Allocate;
      var index := AllocateInterface(e.sourceId);
      if index.Err? { return false; }
      ok := WritePacket(index.value, e);
    }
  }

  lemma InterfaceBlockSize()
    ensures |InterfaceBlock()| == 20 && |SectionBlock()| == 28
  {
  }

  lemma PacketPieces(before: seq<u8>, index: u32, e: Event)
    requires Total(e) < TWO32 && e.meta.payloadLen <= |e.payload|
    ensures before + Pack(PacketFields(index, e)) + Header(e.meta, DataLen(e)) + Descriptors(e.iso)
            + e.payload[..e.meta.payloadLen] + Zeros(Padding(e)) + Le(Total(e), 4)
            == before + PacketBlock(index, e)
  {
    Reassociate(before, Pack(PacketFields(index, e)), Header(e.meta, DataLen(e)), Descriptors(e.iso),
                e.payload[..e.meta.payloadLen], Zeros(Padding(e)), Le(Total(e), 4));
  }

  lemma Reassociate<T>(a: seq<T>, b: seq<T>, c: seq<T>, d: seq<T>, e: seq<T>, f: seq<T>, g: seq<T>)
    ensures a + b + c + d + e + f + g == a + (b + (c + (d + (e + (f + g)))))
  {
    assert a + b + c + d + e + f + g == a + b + c + d + (e + (f + g));
    assert a + b + c + d + (e + (f + g)) == a + b + (c + (d + (e + (f + g))));
  }

  lemma {:induction false} DescriptorsSize(iso: seq<IsoDescriptor>)
    ensures |Descriptors(iso)| == 16 * |iso|
  {
    if iso != [] {
      IsoRoundTrip(iso[0]);
      DescriptorsSize(iso[1..]);
    }
  }

  /** The first 40 header bytes, wherever they are found. */
  lemma HeaderStartRead(m: EventMeta, dataLen: u32, b: seq<u8>, tail: seq<u8>)
    requires b == Pack(HeaderStart(m, dataLen)) + tail
    ensures 40 <= |b| && b[40..] == tail
    ensures U64At(b, 0) == m.urbId && b[8] == m.eventType && b[9] == m.transferType && b[10] == m.endpoint
    ensures b[11] == m.device && U16At(b, 12) == m.bus && b[14] == SetupFlag(m) && b[15] == DataFlag(m)
    ensures U64At(b, 16) == Microseconds(m) / 1_000_000 && U32At(b, 24) == Microseconds(m) % 1_000_000
    ensures U32At(b, 28) == Unsigned(m.status) && U32At(b, 32) == UrbLength(m) && U32At(b, 36) == dataLen
  {
    var f := HeaderStart(m, dataLen);
    assert b[0..] == Pack(f) + tail;
    Unpack(b, 0, f, tail);
    f := f.rest; assert Reads(b, 8, f, tail);
    f := f.rest; assert Reads(b, 9, f, tail);
    f := f.rest; assert Reads(b, 10, f, tail);
    f := f.rest; assert Reads(b, 11, f, tail);
    f := f.rest; assert Reads(b, 12, f, tail);
    f := f.rest; assert Reads(b, 14, f, tail);
    f := f.rest; assert Reads(b, 15, f, tail);
    f := f.rest; assert Reads(b, 16, f, tail);
    f := f.rest; assert Reads(b, 24, f, tail);
    f := f.rest; assert Reads(b, 28, f, tail);
    f := f.rest; assert Reads(b, 32, f, tail);
    f := f.rest; assert Reads(b, 36, f, tail);
    f := f.rest; assert Reads(b, 40, f, tail);
  }

  lemma HeaderEndRead(m: EventMeta, b: seq<u8>, tail: seq<u8>)
    requires b == Pack(HeaderEnd(m)) + tail
    ensures 16 <= |b| && b[16..] == tail
    ensures U32At(b, 0) == Unsigned(m.interval) && U32At(b, 4) == Unsigned(m.startFrame)
    ensures U32At(b, 8) == m.transferFlags && U32At(b, 12) == m.isoCount
  {
    var f := HeaderEnd(m);
    assert b[0..] == Pack(f) + tail;
    Unpack(b, 0, f, tail);
    f := f.rest; assert Reads(b, 4, f, tail);
    f := f.rest; assert Reads(b, 8, f, tail);
    f := f.rest; assert Reads(b, 12, f, tail);
    f := f.rest; assert Reads(b, 16, f, tail);
  }

  lemma PacketFieldsRead(interface: u32, e: Event, b: seq<u8>, tail: seq<u8>)
    requires Total(e) < TWO32 && b == Pack(PacketFields(interface, e)) + tail
    ensures 28 <= |b| && b[28..] == tail
    ensures U32At(b, 0) == 6 && U32At(b, 4) == Total(e) && U32At(b, 8) == interface
    ensures U32At(b, 12) == Microseconds(e.meta) / TWO32 && U32At(b, 16) == Microseconds(e.meta) % TWO32
    ensures U32At(b, 20) == CapLen(e) && U32At(b, 24) == CapLen(e)
  {
    var f := PacketFields(interface, e);
    assert b[0..] == Pack(f) + tail;
    Unpack(b, 0, f, tail);
    f := f.rest; assert Reads(b, 4, f, tail);
    f := f.rest; assert Reads(b, 8, f, tail);
    f := f.rest; assert Reads(b, 12, f, tail);
    f := f.rest; assert Reads(b, 16, f, tail);
    f := f.rest; assert Reads(b, 20, f, tail);
    f := f.rest; assert Reads(b, 24, f, tail);
    f := f.rest; assert Reads(b, 28, f, tail);
  }

  lemma HeaderSize(m: EventMeta, dataLen: u32)
    ensures |Pack(HeaderStart(m, dataLen))| == 40 && |Pack(HeaderEnd(m))| == 16 && |Header(m, dataLen)| == 64
  {
    assert Pack(HeaderStart(m, dataLen)) == Pack(HeaderStart(m, dataLen)) + [];
    assert Pack(HeaderEnd(m)) == Pack(HeaderEnd(m)) + [];
    HeaderStartRead(m, dataLen, Pack(HeaderStart(m, dataLen)), []);
    HeaderEndRead(m, Pack(HeaderEnd(m)), []);
  }

  lemma CapLenIs(e: Event)
    ensures CapLen(e) == 64 + 16 * |e.iso| + e.meta.payloadLen
  {
  }

  lemma PaddedLength(n: nat)
    ensures (n + (4 - n % 4) % 4 + 32) % 4 == 0
  {
  }

  /** Each block is exactly as long as it says. */
  lemma PacketSize(interface: u32, e: Event)
    requires Total(e) < TWO32 && e.meta.payloadLen <= |e.payload|
    ensures |PacketBlock(interface, e)| == Total(e) && Total(e) % 4 == 0
  {
    hide Header; hide Descriptors; hide PacketFields; hide Pack; hide U32; hide CapLen; hide Zeros;
    assert CapLen(e) == 64 + DataLen(e) by { CapLenIs(e); }
    PaddedLength(CapLen(e));
    HeaderSize(e.meta, DataLen(e));
    DescriptorsSize(e.iso);
    var f := Pack(PacketFields(interface, e));
    assert f == f + [];
    PacketFieldsRead(interface, e, f, []);
  }

  /** The pseudoheader as the program fills it: a zeroed 64-byte array, field by field. */
  method FillHeader(m: EventMeta, dataLen: u32) returns (header: seq<u8>)
    ensures header == Header(m, dataLen)
  {
    hide HeaderStart; hide HeaderMiddle; hide HeaderEnd; hide Pack;
    var a := new u8[64](i => 0);
    FillStart(a, m, dataLen, Microseconds(m));
    HeaderSize(m, dataLen);
    assert a[40..48] == Zeros(8);
    FillMiddle(a, m);
    FillEnd(a, m);
    return a[..];
  }

  method FillMiddle(a: array<u8>, m: EventMeta)
    requires a.Length == 64 && a[40..48] == Zeros(8)
    modifies a
    ensures a[..48] == old(a[..40]) + HeaderMiddle(m)
  {
    hide Le;
    if IsoTransfer(m) {
      CopyInto(a, 40, Le(Unsigned(m.errorCount), 4));
      CopyInto(a, 44, Le(m.isoCount, 4));
    } else if m.setupPresent != 0 {
      CopyInto(a, 40, m.setup);
    }
  }

  method FillEnd(a: array<u8>, m: EventMeta)
    requires a.Length == 64
    modifies a
    ensures a[..] == old(a[..48]) + Pack(HeaderEnd(m))
  {
    hide Le; hide Pack;
    CopyInto(a, 48, Le(Unsigned(m.interval), 4));
    CopyInto(a, 52, Le(Unsigned(m.startFrame), 4));
    CopyInto(a, 56, Le(m.transferFlags, 4));
    CopyInto(a, 60, Le(m.isoCount, 4));
    EndIs(m);
    assert a[..64] == a[..];
  }

  lemma EndIs(m: EventMeta)
    ensures Pack(HeaderEnd(m)) == Le(Unsigned(m.interval), 4) + Le(Unsigned(m.startFrame), 4) + Le(m.transferFlags, 4)
            + Le(m.isoCount, 4)
  {
    var f := HeaderEnd(m);
    assert Pack(f.rest.rest.rest) == Le(m.isoCount, 4);
    assert Pack(f.rest.rest) == Le(m.transferFlags, 4) + Le(m.isoCount, 4);
  }

  /** What `FillStart` writes after the first sixteen bytes. */
  function StartTimes(m: EventMeta, dataLen: u32): Fields {
    B8(Microseconds(m) / 1_000_000, B4(Microseconds(m) % 1_000_000,
    B4(Unsigned(m.status), B4(UrbLength(m), B4(dataLen, End)))))
  }

  method FillStart(a: array<u8>, m: EventMeta, dataLen: u32, ts: nat)
    requires a.Length == 64 && ts == Microseconds(m)
    modifies a
    ensures a[..40] == Pack(HeaderStart(m, dataLen))
    ensures forall j :: 40 <= j < 64 ==> a[j] == old(a[j])
  {
    hide Le;
    ghost var f := HeaderStart(m, dataLen);
    ghost var whole := Pack(f);
    assert a[..0] + Pack(f) == whole;
    Put(a, 0, Le(m.urbId, 8), Pack(f.rest), whole); f := f.rest;
    Put(a, 8, [m.eventType], Pack(f.rest), whole); f := f.rest;
    Put(a, 9, [m.transferType], Pack(f.rest), whole); f := f.rest;
    Put(a, 10, [m.endpoint], Pack(f.rest), whole); f := f.rest;
    Put(a, 11, [m.device], Pack(f.rest), whole); f := f.rest;
    Put(a, 12, Le(m.bus, 2), Pack(f.rest), whole); f := f.rest;
    Put(a, 14, [SetupFlag(m)], Pack(f.rest), whole); f := f.rest;
    Put(a, 15, [DataFlag(m)], Pack(f.rest), whole); f := f.rest;
    FillTimes(a, m, dataLen, ts, whole);
  }

  method FillTimes(a: array<u8>, m: EventMeta, dataLen: u32, ts: nat, ghost whole: seq<u8>)
    requires a.Length == 64 && ts == Microseconds(m) && a[..16] + Pack(StartTimes(m, dataLen)) == whole
    modifies a
    ensures a[..40] == whole
    ensures forall j :: 40 <= j < 64 ==> a[j] == old(a[j])
  {
    hide Le;
    ghost var f := StartTimes(m, dataLen);
    Put(a, 16, Le(ts / 1_000_000, 8), Pack(f.rest), whole); f := f.rest;
    Put(a, 24, Le(ts % 1_000_000, 4), Pack(f.rest), whole); f := f.rest;
    Put(a, 28, Le(Unsigned(m.status), 4), Pack(f.rest), whole); f := f.rest;
    Put(a, 32, Le(UrbLength(m), 4), Pack(f.rest), whole); f := f.rest;
    Put(a, 36, Le(dataLen, 4), Pack(f.rest), whole); f := f.rest;
    assert a[..40] + [] == a[..40];
  }
}
