/**
 The pcapng reader: sections of either byte order, interface options, Enhanced Packet Blocks, pairing of
 completions with their submissions, and classification of packets that lost data.
 */
module PcapngRead {
  import opened Bytes
  import opened Records
  import Arithmetic

  datatype Endian = Little | Big {
    function Order(b: seq<u8>): seq<u8> {
      if Little? then b else seq(|b|, i requires 0 <= i < |b| => b[|b| - 1 - i])
    }

    function At16(b: seq<u8>, at: nat): u16 requires at + 2 <= |b| { U16(Order(b[at..at + 2])) }
    function At32(b: seq<u8>, at: nat): u32 requires at + 4 <= |b| { U32(Order(b[at..at + 4])) }
    function At64(b: seq<u8>, at: nat): u64 requires at + 8 <= |b| { U64(Order(b[at..at + 8])) }
  }

  /** Base-256 digits, most significant first. */
  function Digits(a: nat, b: nat, c: nat, d: nat): nat { ((a * 256 + b) * 256 + c) * 256 + d }

  /** Scalars of either byte order, digit by digit. */
  lemma ScalarsMean(b: seq<u8>, at: nat)
    ensures at + 2 <= |b| ==>
            Little.At16(b, at) == Digits(0, 0, b[at + 1], b[at])
            && Big.At16(b, at) == Digits(0, 0, b[at], b[at + 1])
    ensures at + 4 <= |b| ==>
              && Little.At32(b, at) == Digits(b[at + 3], b[at + 2], b[at + 1], b[at])
              && Big.At32(b, at) == Digits(b[at], b[at + 1], b[at + 2], b[at + 3])
    ensures at + 8 <= |b| ==>
              && Little.At64(b, at) == Little.At32(b, at) + TWO32 * Little.At32(b, at + 4)
              && Big.At64(b, at) == TWO32 * Big.At32(b, at) + Big.At32(b, at + 4)
  {
    if at + 2 <= |b| { TwoDigits(b[at..at + 2]); TwoDigits(Big.Order(b[at..at + 2])); }
    if at + 4 <= |b| { FourDigits(b[at..at + 4]); FourDigits(Big.Order(b[at..at + 4])); }
    if at + 8 <= |b| {
      Halves(b[at..at + 8]); Halves(Big.Order(b[at..at + 8]));
      assert b[at..at + 8][..4] == b[at..at + 4] && b[at..at + 8][4..] == b[at + 4..at + 8];
      assert Big.Order(b[at..at + 8])[..4] == Big.Order(b[at + 4..at + 8])
        && Big.Order(b[at..at + 8])[4..] == Big.Order(b[at..at + 4]);
    }
  }

  lemma TwoDigits(b: seq<u8>)
    requires |b| == 2
    ensures FromLe(b) == Digits(0, 0, b[1], b[0])
  {
    assert FromLe(b[1..]) == b[1] + 256 * FromLe(b[1..][1..]);
  }

  lemma FourDigits(b: seq<u8>)
    requires |b| == 4
    ensures FromLe(b) == Digits(b[3], b[2], b[1], b[0])
  {
    var c, d := b[1..], b[2..];
    assert c[1..] == d;
    TwoDigits(d);
  }

  lemma Halves(b: seq<u8>)
    requires |b| == 8
    ensures FromLe(b) == FromLe(b[..4]) + TWO32 * FromLe(b[4..])
  {
    FourDigits(b[..4]);
    var c, d, e, f := b[1..], b[2..], b[3..], b[4..];
    assert c[1..] == d && d[1..] == e && e[1..] == f;
    assert FromLe(c) == b[1] + 256 * FromLe(d) && FromLe(d) == b[2] + 256 * FromLe(e)
      && FromLe(e) == b[3] + 256 * FromLe(f);
  }

  /** `units` ticks make a second; `offset` is in seconds. */
  datatype Interface = Interface(sourceId: u64, linktype: u16, units: nat, offset: int)

  type Key = (u64, u64)

  datatype State = State(
    input: seq<u8>, endian: Endian, section: bool, interfaces: seq<Interface>, nextSourceId: nat,
    requested: map<Key, u32>, incomplete: nat)

  const MAX_UNMATCHED: nat := 65536

  function Fresh(input: seq<u8>): State {
    State(input, Little, false, [], 0, map[], 0)
  }

  // ----- interfaces -----

  function Power(base: nat, n: nat): (r: nat)
    requires base > 0
    ensures r > 0
  {
    if n == 0 then 1 else base * Power(base, n - 1)
  }

  function Resolution(v: u8): (r: Option<nat>)
    ensures r.Some? ==> r.value > 0
  {
    var units := if v >= 128 then Power(2, v - 128) else Power(10, v);
    if units < TWO64 then Some(units) else None
  }

  /** A 64-bit two's complement value. */
  function Signed64(x: u64): int { if x < TWO64 / 2 then x else x - TWO64 }

  /** The option list of an interface block, up to an end marker or the last three bytes. */
  function ReadOptions(b: seq<u8>, endian: Endian, i: Interface): (r: Result<Interface>)
    ensures r.Ok? && i.units > 0 ==> r.value.units > 0
    decreases |b|
  {
    if |b| < 4 then Ok(i) else
    var code, length := endian.At16(b, 0), endian.At16(b, 2);
    var padded: nat := length + (4 - length % 4) % 4;
    if padded > |b| - 4 then Err else
    var value, rest := b[4..4 + length], b[4 + padded..];
    if code == 9 then
      if length != 1 || Resolution(value[0]).None? then Err
      else ReadOptions(rest, endian, i.(units := Resolution(value[0]).value))
    else if code == 14 then
      if length != 8 then Err else ReadOptions(rest, endian, i.(offset := Signed64(endian.At64(value, 0))))
    else if code == 0 then
      if length != 0 then Err else Ok(i)
    else ReadOptions(rest, endian, i)
  }

  function ReadInterface(s: State, block: seq<u8>): (r: Result<State>)
    requires |block| >= 12
    ensures r.Ok? ==> r.value.input == s.input && (ValidState(s) ==> ValidState(r.value))
  {
    if |block| < 20 then Err else
    var i :- ReadOptions(block[16..|block| - 4], s.endian, Interface(0, s.endian.At16(block, 8), 1_000_000, 0));
    if s.nextSourceId >= TWO64 - 1 then Err
    else Ok(s.(interfaces := s.interfaces + [i.(sourceId := s.nextSourceId)], nextSourceId := s.nextSourceId + 1))
  }

  lemma {:induction false} PowerMono(base: nat, m: nat, n: nat)
    requires base > 0 && m <= n
    ensures Power(base, m) <= Power(base, n)
    decreases n
  {
    if m < n {
      PowerMono(base, m, n - 1);
      assert Power(base, n) == base * Power(base, n - 1) >= 1 * Power(base, n - 1);
    }
  }

  lemma PowerValues()
    ensures Power(2, 63) < TWO64 <= Power(2, 64) && Power(10, 19) < TWO64 <= Power(10, 20)
  {
    assert Power(2, 8) == 256 && Power(2, 16) == 65536;
    PowerAdd(2, 16, 16); PowerAdd(2, 32, 16); PowerAdd(2, 48, 15); PowerAdd(2, 48, 16);
    assert Power(2, 15) == 32768;
    assert Power(10, 5) == 100_000;
    PowerAdd(10, 5, 5); PowerAdd(10, 10, 5); PowerAdd(10, 15, 4); PowerAdd(10, 15, 5);
    assert Power(10, 4) == 10_000;
  }

  lemma {:induction false} PowerAdd(base: nat, m: nat, n: nat)
    requires base > 0
    ensures Power(base, m + n) == Power(base, m) * Power(base, n)
  {
    if m > 0 {
      PowerAdd(base, m - 1, n);
      Multiply(base, Power(base, m - 1), Power(base, n));
    }
  }

  lemma Multiply(a: nat, b: nat, c: nat)
    ensures a * (b * c) == (a * b) * c
  {
  }

  /** A resolution is representable up to 10^19 or 2^63 ticks a second. */
  lemma ResolutionExact(v: u8)
    ensures Resolution(v) == if v <= 19 then Some(Power(10, v)) else if 128 <= v < 192 then Some(Power(2, v - 128))
                             else None
  {
    hide Power;
    PowerValues();
    if v < 128 {
      if v <= 19 { PowerMono(10, v, 19); } else { PowerMono(10, 20, v); }
    } else {
      if v < 192 { PowerMono(2, v - 128, 63); } else { PowerMono(2, 64, v - 128); }
    }
  }

  /** Milli-, micro- and nanoseconds, and 1024 ticks a second. */
  lemma CommonResolutions()
    ensures Resolution(3) == Some(1_000) && Resolution(6) == Some(1_000_000) && Resolution(9) == Some(1_000_000_000)
    ensures Resolution(138) == Some(1024)
  {
    assert Power(10, 3) == 1_000;
    PowerAdd(10, 3, 3);
    PowerAdd(10, 6, 3);
    assert Power(2, 5) == 32;
    PowerAdd(2, 5, 5);
  }

  // ----- sections -----

  function ReadSection(s: State, block: seq<u8>, endian: Endian): Result<State>
    requires |block| >= 28
  {
    if endian.At16(block, 12) != 1 then Err
    else Ok(s.(endian := endian, section := true, interfaces := [], requested := map[]))
  }

  // ----- packets -----

  function Timestamp(ticks: u64, i: Interface): Option<u64>
    requires i.units > 0
  {
    var t := ticks * 1_000_000_000 / i.units + i.offset * 1_000_000_000;
    if 0 <= t < TWO64 then Some(t) else None
  }

  /** A packet's time is the last whole nanosecond not after its tick; it must fit 64 bits. */
  lemma TimestampFloors(ticks: u64, i: Interface, t: int)
    requires i.units > 0
    requires (t - i.offset * 1_000_000_000) * i.units <= ticks * 1_000_000_000
             < (t - i.offset * 1_000_000_000 + 1) * i.units
    ensures Timestamp(ticks, i) == if 0 <= t < TWO64 then Some(t) else None
  {
    var n, q := ticks * 1_000_000_000, t - i.offset * 1_000_000_000;
    Arithmetic.Distribute(q, 1, i.units);
    Arithmetic.DivisionUnique(n, i.units, q, n - q * i.units);
  }

  function ReadDescriptor(b: seq<u8>, endian: Endian): IsoDescriptor
    requires |b| == 16
  {
    IsoDescriptor(Signed(endian.At32(b, 0)), endian.At32(b, 4), endian.At32(b, 8))
  }

  /** ISO descriptors, each inside the buffer where its size is known, and inside the payload where there is one. */
  function ReadDescriptors(b: seq<u8>, count: nat, endian: Endian, m: EventMeta, requestedKnown: bool)
    : Result<seq<IsoDescriptor>>
    requires |b| == 16 * count
    decreases count
  {
    if count == 0 then Ok([]) else
    var d := ReadDescriptor(b[..16], endian);
    var end := d.offset + d.length;
    if end >= TWO32 || (requestedKnown && end > m.requestedLen) then Err
    else if m.hasData != 0 && d.length != 0 && end > m.payloadLen then Err
    else
      var rest :- ReadDescriptors(b[16..], count - 1, endian, m, requestedKnown);
      Ok([d] + rest)
  }

  /** Metadata straight from the pseudoheader; lengths and pairing follow. */
  function BaseMeta(usb: seq<u8>, endian: Endian, timestamp: u64): EventMeta
    requires |usb| == 64
  {
    EventMeta(
      endian.At64(usb, 0), timestamp, endian.At16(usb, 12), usb[11], usb[10], usb[9], usb[8],
      if usb[14] == 0 then 1 else 0, if usb[15] == 0 then 1 else 0,
      Signed(endian.At32(usb, 28)), 0, 0, 0, Signed(endian.At32(usb, 48)), Signed(endian.At32(usb, 52)),
      endian.At32(usb, 56), endian.At32(usb, 60), 0, 0, 0, [0, 0, 0, 0, 0, 0, 0, 0])
  }

  predicate PseudoheaderOk(m: EventMeta) {
    && (m.eventType == SUBMIT || m.eventType == COMPLETION || m.eventType == SUBMIT_ERROR)
    && m.transferType <= 3 && m.device <= 127
  }

  /** What a submission declares is remembered until the next packet of the same URB and interface. */
  function Pair(requested: map<Key, u32>, key: Key, submit: bool, length: u32): (map<Key, u32>, Option<u32>) {
    if submit then (requested[key := length], Some(length))
    else (requested - {key}, if key in requested then Some(requested[key]) else None)
  }

  /** Data was expected but is absent, or is shorter than the transfer. */
  predicate LostData(m: EventMeta, iso: seq<IsoDescriptor>, wireLen: u32) {
    var expected := DataPhase(m) && if IsoTransfer(m) then exists d | d in iso :: d.length != 0 else wireLen != 0;
    (expected && m.hasData == 0) || (!IsoTransfer(m) && m.hasData != 0 && m.payloadLen != wireLen)
  }

  /** The payload is what the descriptors leave of the packet. */
  function Sized(base: EventMeta, dataLen: u32): (r: Result<EventMeta>)
    ensures r.Ok? ==> 16 * r.value.isoCount <= dataLen
  {
    var descBytes := 16 * base.isoCount;
    if descBytes >= TWO32 || descBytes > dataLen || (!IsoTransfer(base) && base.isoCount != 0) then Err
    else if base.hasData == 0 && dataLen - descBytes != 0 then Err
    else Ok(base.(payloadLen := dataLen - descBytes))
  }

  /** What follows the lengths: ISO totals and descriptors or the setup packet, then the payload. */
  function ReadBody(packet: seq<u8>, endian: Endian, source: u64, m: EventMeta, requestedKnown: bool): Result<Event>
    requires |packet| >= 64 + 16 * m.isoCount
  {
    var payload := packet[64 + 16 * m.isoCount..];
    if IsoTransfer(m) then
      if endian.At32(packet, 44) != m.isoCount then Err else
      var iso :- ReadDescriptors(packet[64..64 + 16 * m.isoCount], m.isoCount, endian, m, requestedKnown);
      Ok(Event(source, m.(errorCount := Signed(endian.At32(packet, 40))), iso, payload, false, requestedKnown))
    else
      var setup: Setup := if m.setupPresent != 0 then packet[40..48] else m.setup;
      Ok(Event(source, m.(setup := setup), [], payload, false, requestedKnown))
  }

  function ReadUsb(s: State, source: u64, timestamp: u64, packet: seq<u8>): (r: Result<(State, Option<Event>)>)
    requires |packet| >= 64
    ensures r.Ok? ==> Keeps(s, r.value.0)
  {
    var base := BaseMeta(packet[..64], s.endian, timestamp);
    if !PseudoheaderOk(base) then Err else
    var wireLen, dataLen := s.endian.At32(packet, 32), s.endian.At32(packet, 36);
    if dataLen != |packet| - 64 then Err else
    var sized :- Sized(base, dataLen);
    var submit := sized.eventType == SUBMIT;
    if submit && |s.requested| >= MAX_UNMATCHED then Err else
    var (requested, known) := Pair(s.requested, (source, sized.urbId), submit, wireLen);
    var m := sized.(requestedLen := if known.Some? then known.value else 0, actualLen := if submit then 0 else wireLen);
    var event :- ReadBody(packet, s.endian, source, m, known.Some?);
    Ok(Finish(s, requested, event, wireLen))
  }

  function Finish(s: State, requested: map<Key, u32>, event: Event, wireLen: u32): (r: (State, Option<Event>))
    ensures Keeps(s, r.0)
  {
    if LostData(event.meta, event.iso, wireLen) then (s.(requested := requested, incomplete := s.incomplete + 1), None)
    else (s.(requested := requested), Some(event))
  }

  /** A packet changes only the pairing table and the loss count. */
  predicate Keeps(s: State, t: State) {
    t == s.(requested := t.requested, incomplete := t.incomplete)
  }

  function ReadPacket(s: State, block: seq<u8>): (r: Result<(State, Option<Event>)>)
    requires |block| >= 12 && ValidState(s)
    ensures r.Ok? ==> Keeps(s, r.value.0)
  {
    hide ReadUsb;
    if |block| < 32 then Err else
    var index := s.endian.At32(block, 8);
    if index >= |s.interfaces| || s.interfaces[index].linktype != 220 then Err else
    var ticks := s.endian.At32(block, 12) * TWO32 + s.endian.At32(block, 16);
    var timestamp := Timestamp(ticks, s.interfaces[index]);
    if timestamp.None? then Err else
    var caplen, original := s.endian.At32(block, 20), s.endian.At32(block, 24);
    if caplen + (4 - caplen % 4) % 4 > |block| - 32 then Err
    else if caplen < 64 || caplen < original then Ok((s.(incomplete := s.incomplete + 1), None))
    else if caplen != original then Err
    else ReadUsb(s, s.interfaces[index].sourceId, timestamp.value, block[28..28 + caplen])
  }

  // ----- blocks -----

  predicate ValidState(s: State) {
    forall i | i in s.interfaces :: i.units > 0
  }

  function Magic(b: seq<u8>): Option<Endian> {
    if b == [77, 60, 43, 26] then Some(Little) else if b == [26, 43, 60, 77] then Some(Big) else None
  }

  predicate IsSection(input: seq<u8>) { |input| >= 8 && input[..4] == [10, 13, 13, 10] }

  /** A block of the declared size, its length repeated at its end. */
  function TakeBlock(input: seq<u8>, endian: Endian, least: nat): (r: Result<seq<u8>>)
    requires |input| >= 8 && least >= 12
    ensures r.Ok? ==> least <= |r.value| <= |input| && r.value == input[..|r.value|]
  {
    var size := endian.At32(input, 4);
    if size < least || size % 4 != 0 || size > |input| || endian.At32(input, size - 4) != size then Err
    else Ok(input[..size])
  }

  /** A block inside a section; blocks of unknown kinds are skipped. */
  function ReadBodyBlock(s: State, kind: u32, block: seq<u8>): (r: Result<(State, Option<Event>)>)
    requires |block| >= 12 && ValidState(s)
    ensures r.Ok? ==> ValidState(r.value.0) && r.value.0.input == s.input
  {
    hide ReadPacket; hide ReadOptions;
    if kind == 1 then
      var t :- ReadInterface(s, block);
      Ok((t, None))
    else if kind == 6 then ReadPacket(s, block)
    else if kind == 2 || kind == 3 then Err
    else Ok((s, None))
  }

  /** One block: the state after it and the event it carries, if any. */
  function ReadBlock(s: State): (r: Result<(State, Option<Event>)>)
    requires ValidState(s) && s.input != []
    ensures r.Ok? ==> ValidState(r.value.0) && |r.value.0.input| < |s.input|
  {
    hide ReadBodyBlock; hide Endian.At32;
    if |s.input| < 8 then Err
    else if IsSection(s.input) then
      if |s.input| < 12 || Magic(s.input[8..12]).None? then Err else
      var endian := Magic(s.input[8..12]).value;
      var block :- TakeBlock(s.input, endian, 28);
      var t :- ReadSection(s, block, endian);
      Ok((t.(input := s.input[|block|..]), None))
    else if !s.section then Err
    else
      var block :- TakeBlock(s.input, s.endian, 12);
      var t :- ReadBodyBlock(s, s.endian.At32(s.input, 0), block);
      Ok((t.0.(input := s.input[|block|..]), t.1))
  }

  function NextEvent(s: State): (r: Result<(State, Option<Event>)>)
    requires ValidState(s)
    ensures r.Ok? ==> ValidState(r.value.0) && (r.value.1.Some? ==> |r.value.0.input| < |s.input|)
    decreases |s.input|
  {
    if s.input == [] then Ok((s, None)) else
    var t :- ReadBlock(s);
    if t.1.Some? then Ok(t) else NextEvent(t.0)
  }

  /** Every event of a file. */
  function ReadAll(s: State): Result<(seq<Event>, State)>
    requires ValidState(s)
    decreases |s.input|
  {
    var t :- NextEvent(s);
    if t.1.None? then Ok(([], t.0)) else
    var more :- ReadAll(t.0);
    Ok(([t.1.value] + more.0, more.1))
  }

  // ----- the reader object -----

  lemma OptionHeader(b: seq<u8>, at: nat, endian: Endian)
    requires at + 4 <= |b|
    ensures endian.At16(b[at..], 0) == endian.At16(b, at) && endian.At16(b[at..], 2) == endian.At16(b, at + 2)
  {
    assert b[at..][0..2] == b[at..at + 2];
    assert b[at..][2..4] == b[at + 2..at + 4];
  }

  lemma OptionValue(b: seq<u8>, at: nat, length: nat, padded: nat)
    requires at + 4 + length <= at + 4 + padded <= |b|
    ensures b[at..][4..4 + length] == b[at + 4..at + 4 + length] && b[at..][4 + padded..] == b[at + 4 + padded..]
  {
  }

  /** The option loop as the program runs it. */
  method ScanOptions(b: seq<u8>, endian: Endian, i: Interface) returns (r: Result<Interface>)
    ensures r == ReadOptions(b, endian, i)
  {
    hide Endian.At16; hide Endian.At64; hide Resolution; hide Signed64;
    var at, interface := 0, i;
    assert b[0..] == b;
    while |b| - at >= 4
      invariant 0 <= at <= |b| && ReadOptions(b, endian, i) == ReadOptions(b[at..], endian, interface)
      decreases |b| - at
    {
      OptionHeader(b, at, endian);
      var code: nat := endian.At16(b, at);
      var length: nat := endian.At16(b, at + 2);
      var padded: nat := length + (4 - length % 4) % 4;
      if padded > |b| - at - 4 { return Err; }
      var value := b[at + 4..at + 4 + length];
      OptionValue(b, at, length, padded);
      at := at + 4 + padded;
      if code == 9 {
        if length != 1 || Resolution(value[0]).None? { return Err; }
        interface := interface.(units := Resolution(value[0]).value);
      } else if code == 14 {
        if length != 8 { return Err; }
        interface := interface.(offset := Signed64(endian.At64(value, 0)));
      } else if code == 0 {
        if length != 0 { return Err; }
        return Ok(interface);
      }
    }
    return Ok(interface);
  }

  function Prepend(iso: seq<IsoDescriptor>, r: Result<seq<IsoDescriptor>>): Result<seq<IsoDescriptor>> {
    if r.Ok? then Ok(iso + r.value) else Err
  }

  lemma SplitLeft(b: seq<u8>, i: nat)
    requires 16 * i + 16 <= |b|
    ensures b[16 * i..][..16] == b[16 * i..16 * i + 16] && b[16 * i..][16..] == b[16 * (i + 1)..]
  {
  }

  /** The descriptor loop as the program runs it. */
  method ScanDescriptors(b: seq<u8>, count: nat, endian: Endian, m: EventMeta, requestedKnown: bool)
    returns (r: Result<seq<IsoDescriptor>>)
    requires |b| == 16 * count
    ensures r == ReadDescriptors(b, count, endian, m, requestedKnown)
  {
    hide Endian.At32; hide ReadDescriptor;
    var iso: seq<IsoDescriptor> := [];
    assert b[0..] == b;
    ghost var all := ReadDescriptors(b, count, endian, m, requestedKnown);
    assert all.Ok? ==> iso + all.value == all.value;
    for i := 0 to count
      invariant ReadDescriptors(b, count, endian, m, requestedKnown)
                == Prepend(iso, ReadDescriptors(b[16 * i..], count - i, endian, m, requestedKnown))
    {
      ghost var left := b[16 * i..];
      SplitLeft(b, i);
      ghost var more := ReadDescriptors(left[16..], count - (i + 1), endian, m, requestedKnown);
      var d := ReadDescriptor(b[16 * i..16 * i + 16], endian);
      var end := d.offset + d.length;
      if end >= TWO32 || (requestedKnown && end > m.requestedLen) { return Err; }
      if m.hasData != 0 && d.length != 0 && end > m.payloadLen { return Err; }
      if more.Ok? { Associate(iso, [d], more.value); }
      iso := iso + [d];
    }
    assert iso + [] == iso;
    return Ok(iso);
  }

  class Reader {
    var input: seq<u8>
    var endian: Endian
    var section: bool
    var interfaces: seq<Interface>
    var nextSourceId: nat
    var requested: map<Key, u32>
    var incomplete: nat

    ghost function Model(): State
      reads this
    {
      State(input, endian, section, interfaces, nextSourceId, requested, incomplete)
    }

    ghost predicate Valid()
      reads this
    {
      ValidState(Model())
    }

    constructor (input: seq<u8>)
      ensures Valid() && Model() == Fresh(input)
    {
      this.input, endian, section, interfaces := input, Little, false, [];
      nextSourceId, requested, incomplete := 0, map[], 0;
    }

    method InterfaceBlock(block: seq<u8>) returns (ok: bool)
      requires Valid() && |block| >= 12
      modifies this`interfaces, this`nextSourceId
      ensures ok <==> ReadInterface(old(Model()), block).Ok?
      ensures ok ==> Model() == ReadInterface(old(Model()), block).value
    {
      if |block| < 20 { return false; }
      var i := ScanOptions(block[16..|block| - 4], endian, Interface(0, endian.At16(block, 8), 1_000_000, 0));
      if i.Err? || nextSourceId >= TWO64 - 1 { return false; }
      interfaces := interfaces + [i.value.(sourceId := nextSourceId)];
      nextSourceId := nextSourceId + 1;
      return true;
    }

    method SectionBlock(block: seq<u8>, order: Endian) returns (ok: bool)
      requires |block| >= 28
      modifies this`endian, this`section, this`interfaces, this`requested
      ensures ok <==> ReadSection(old(Model()), block, order).Ok?
      ensures ok ==> Model() == ReadSection(old(Model()), block, order).value
    {
      if order.At16(block, 12) != 1 { return false; }
      endian, section, interfaces, requested := order, true, [], map[];
      return true;
    }

    method PacketBlock(block: seq<u8>) returns (r: Result<Option<Event>>)
      requires Valid() && |block| >= 12
      modifies this`requested, this`incomplete
      ensures r.Ok? <==> ReadPacket(old(Model()), block).Ok?
      ensures r.Ok? ==> ReadPacket(old(Model()), block) == Ok((Model(), r.value))
    {
      hide ReadUsb; hide Endian.At32;
      if |block| < 32 { return Err; }
      var index := endian.At32(block, 8);
      if index >= |interfaces| || interfaces[index].linktype != 220 { return Err; }
      var ticks := endian.At32(block, 12) * TWO32 + endian.At32(block, 16);
      var timestamp := Timestamp(ticks, interfaces[index]);
      if timestamp.None? { return Err; }
      var caplen, original := endian.At32(block, 20), endian.At32(block, 24);
      if caplen + (4 - caplen % 4) % 4 > |block| - 32 { return Err; }
      if caplen < 64 || caplen < original {
        incomplete := incomplete + 1;
        return Ok(None);
      }
      if caplen != original { return Err; }
      r := UsbPacket(interfaces[index].sourceId, timestamp.value, block[28..28 + caplen]);
    }

    method UsbPacket(source: u64, timestamp: u64, packet: seq<u8>) returns (r: Result<Option<Event>>)
      requires |packet| >= 64
      modifies this`requested, this`incomplete
      ensures r.Ok? <==> ReadUsb(old(Model()), source, timestamp, packet).Ok?
      ensures r.Ok? ==> ReadUsb(old(Model()), source, timestamp, packet) == Ok((Model(), r.value))
    {
      hide BaseMeta; hide ReadBody; hide LostData; hide Endian.At32;
      var base := BaseMeta(packet[..64], endian, timestamp);
      if !PseudoheaderOk(base) { return Err; }
      var wireLen, dataLen := endian.At32(packet, 32), endian.At32(packet, 36);
      if dataLen != |packet| - 64 { return Err; }
      var m :- Sized(base, dataLen);
      var key := (source, m.urbId);
      var requestedKnown := true;
      if m.eventType == SUBMIT {
        if |requested| >= MAX_UNMATCHED { return Err; }
        requested := requested[key := wireLen];
        m := m.(requestedLen := wireLen, actualLen := 0);
      } else {
        requestedKnown := key in requested;
        m := m.(requestedLen := if key in requested then requested[key] else 0, actualLen := wireLen);
        requested := requested - {key};
      }
      var event :- Body(packet, source, m, requestedKnown);
      if LostData(event.meta, event.iso, wireLen) {
        incomplete := incomplete + 1;
        return Ok(None);
      }
      return Ok(Some(event));
    }

    method Body(packet: seq<u8>, source: u64, m: EventMeta, requestedKnown: bool) returns (r: Result<Event>)
      requires |packet| >= 64 + 16 * m.isoCount
      ensures r == ReadBody(packet, endian, source, m, requestedKnown)
    {
      hide ReadDescriptors; hide Endian.At32;
      var payload := packet[64 + 16 * m.isoCount..];
      if IsoTransfer(m) {
        if endian.At32(packet, 44) != m.isoCount { return Err; }
        var iso :- ScanDescriptors(packet[64..64 + 16 * m.isoCount], m.isoCount, endian, m, requestedKnown);
        return Ok(Event(source, m.(errorCount := Signed(endian.At32(packet, 40))), iso, payload, false,
          requestedKnown));
      }
      var setup: Setup := m.setup;
      if m.setupPresent != 0 { setup := packet[40..48]; }
      return Ok(Event(source, m.(setup := setup), [], payload, false, requestedKnown));
    }

    /** Consumes one block. */
    method NextBlock() returns (r: Result<Option<Event>>)
      requires Valid() && input != []
      modifies this
      ensures r.Ok? <==> ReadBlock(old(Model())).Ok?
      ensures r.Ok? ==> Valid() && ReadBlock(old(Model())) == Ok((Model(), r.value))
    {
      hide ReadPacket;
      hide ReadOptions;
      hide Endian.At32;
      hide Endian.At16;
      if |input| < 8 { return Err; }
      if IsSection(input) {
        if |input| < 12 || Magic(input[8..12]).None? { return Err; }
        var order := Magic(input[8..12]).value;
        var block :- TakeBlock(input, order, 28);
        var ok := SectionBlock(block, order);
        if !ok { return Err; }
        input := input[|block|..];
        return Ok(None);
      }
      if !section { return Err; }
      var block :- TakeBlock(input, endian, 12);
      var kind := endian.At32(input, 0);
      var event: Option<Event> := None;
      if kind == 1 {
        var ok := InterfaceBlock(block);
        if !ok { return Err; }
      } else if kind == 6 {
        event :- PacketBlock(block);
      } else if kind == 2 || kind == 3 {
        return Err;
      }
      input := input[|block|..];
      return Ok(event);
    }

    /** The next event, past any blocks that carry none. */
    method Next() returns (r: Result<Option<Event>>)
      requires Valid()
      modifies this
      ensures r.Ok? <==> NextEvent(old(Model())).Ok?
      ensures r.Ok? ==> Valid() && NextEvent(old(Model())) == Ok((Model(), r.value))
    {
      hide ReadBlock;
      while input != []
        invariant Valid() && NextEvent(old(Model())) == NextEvent(Model())
        decreases |input|
      {
        var event :- NextBlock();
        if event.Some? { return Ok(event); }
      }
      return Ok(None);
    }
  }
}
