/** Where each field of the filter language comes from: the bytes of the metadata record and of the payload. */
module FilterFields {
  import opened Bytes
  import opened Records
  import opened Filter
  import opened Wire

  /** Fields of the filter language that are read straight from the metadata bytes. */
  lemma FieldsOnWire(ev: Event, latency: Option<u64>)
    ensures |EncodeMeta(ev.meta)| == 72
    ensures var b := EncodeMeta(ev.meta);
            && FieldValue(UrbId, ev, latency) == Ok(Some(Low8(b, 0)))
            && FieldValue(Bus, ev, latency) == Ok(Some(Low2(b, 16)))
            && FieldValue(Device, ev, latency) == Ok(Some(b[18]))
            && FieldValue(Endpoint, ev, latency) == Ok(Some(b[19]))
            && FieldValue(EpNum, ev, latency) == Ok(Some(b[19] % 16))
            && FieldValue(Direction, ev, latency) == Ok(Some(if b[19] < 128 then 0 else 1))
            && FieldValue(Transfer, ev, latency) == Ok(Some(b[20]))
            && FieldValue(EventType, ev, latency) == Ok(Some(b[21]))
            && FieldValue(Status, ev, latency) == Ok(Some(Low4Signed(b, 24)))
            && FieldValue(Captured, ev, latency) == Ok(Some(Low4(b, 36)))
            && FieldValue(Interval, ev, latency) == Ok(Some(Low4Signed(b, 40)))
            && FieldValue(StartFrame, ev, latency) == Ok(Some(Low4Signed(b, 44)))
            && FieldValue(Frames, ev, latency) == Ok(Some(Low4(b, 52)))
            && FieldValue(Errors, ev, latency) == Ok(Some(Low4Signed(b, 56)))
  {
    hide Low2; hide Low4; hide Low8; hide Low4Signed; hide EncodeMeta; hide FieldValue;
    FromMeta(ev, latency);
    MoreFromMeta(ev, latency);
    MetaOnWire(ev.meta);
  }

  lemma FromMeta(ev: Event, latency: Option<u64>)
    ensures var m := ev.meta;
            && FieldValue(UrbId, ev, latency) == Ok(Some(m.urbId)) && FieldValue(Bus, ev, latency) == Ok(Some(m.bus))
            && FieldValue(Device, ev, latency) == Ok(Some(m.device))
            && FieldValue(Endpoint, ev, latency) == Ok(Some(m.endpoint))
            && FieldValue(EpNum, ev, latency) == Ok(Some(m.endpoint % 16))
            && FieldValue(Direction, ev, latency) == Ok(Some(if m.endpoint < 128 then 0 else 1))
            && FieldValue(Transfer, ev, latency) == Ok(Some(m.transferType))
            && FieldValue(EventType, ev, latency) == Ok(Some(m.eventType))
  {
    hide SetupField; hide PayloadField;
  }

  lemma MoreFromMeta(ev: Event, latency: Option<u64>)
    ensures var m := ev.meta;
            && FieldValue(Status, ev, latency) == Ok(Some(m.status))
            && FieldValue(Captured, ev, latency) == Ok(Some(m.payloadLen))
            && FieldValue(Interval, ev, latency) == Ok(Some(m.interval))
            && FieldValue(StartFrame, ev, latency) == Ok(Some(m.startFrame))
            && FieldValue(Frames, ev, latency) == Ok(Some(m.isoCount))
            && FieldValue(Errors, ev, latency) == Ok(Some(m.errorCount))
  {
    hide SetupField; hide PayloadField;
  }

  /** Fields that are known only of some events. */
  lemma OptionalFieldsOnWire(ev: Event, latency: Option<u64>)
    ensures |EncodeMeta(ev.meta)| == 72
    ensures var b := EncodeMeta(ev.meta);
            && FieldValue(Vid, ev, latency) == Ok(if ev.identityKnown then Some(Low2(b, 60)) else None)
            && FieldValue(Pid, ev, latency) == Ok(if ev.identityKnown then Some(Low2(b, 62)) else None)
            && FieldValue(Requested, ev, latency) == Ok(if ev.requestedKnown then Some(Low4(b, 28)) else None)
            && FieldValue(Actual, ev, latency) == Ok(if b[21] == 83 then None else Some(Low4(b, 32)))
            && FieldValue(Length, ev, latency) == Ok(Some(if b[21] == 83 then Low4(b, 28) else Low4(b, 32)))
            && FieldValue(Latency, ev, latency) == Ok(if latency.None? then None else Some(latency.value))
  {
    hide Low2; hide Low4; hide Low8; hide Low4Signed; hide EncodeMeta;
    MetaOnWire(ev.meta);
  }

  /** Fields of a setup packet. */
  lemma SetupFieldsOnWire(ev: Event, latency: Option<u64>)
    ensures |EncodeMeta(ev.meta)| == 72
    ensures var b := EncodeMeta(ev.meta);
            && FieldValue(RequestType, ev, latency) == Ok(if b[22] == 0 then None else Some(b[64]))
            && FieldValue(Request, ev, latency) == Ok(if b[22] == 0 then None else Some(b[65]))
            && FieldValue(Value, ev, latency) == Ok(if b[22] == 0 then None else Some(Low2(b, 66)))
            && FieldValue(Index, ev, latency) == Ok(if b[22] == 0 then None else Some(Low2(b, 68)))
            && FieldValue(SetupLength, ev, latency) == Ok(if b[22] == 0 then None else Some(Low2(b, 70)))
  {
    hide Low2; hide Low4; hide Low8; hide Low4Signed; hide EncodeMeta; hide FieldValue;
    MetaOnWire(ev.meta);
    var b := EncodeMeta(ev.meta);
    SetupValues(ev, latency);
    Tail(b, 2); Tail(b, 4); Tail(b, 6);
    assert b[64] == b[64..][0] && b[65] == b[64..][1];
  }

  lemma SetupValues(ev: Event, latency: Option<u64>)
    ensures var absent, s := ev.meta.setupPresent == 0, ev.meta.setup;
            && FieldValue(RequestType, ev, latency) == Ok(if absent then None else Some(s[0]))
            && FieldValue(Request, ev, latency) == Ok(if absent then None else Some(s[1]))
            && FieldValue(Value, ev, latency) == Ok(if absent then None else Some(Low2(s, 2)))
            && FieldValue(Index, ev, latency) == Ok(if absent then None else Some(Low2(s, 4)))
            && FieldValue(SetupLength, ev, latency) == Ok(if absent then None else Some(Low2(s, 6)))
  {
    hide FieldValue; hide SetupField; hide Low2;
    SetupValue(RequestType, ev, latency); SetupValue(Request, ev, latency); SetupValue(Value, ev, latency);
    SetupValue(Index, ev, latency); SetupValue(SetupLength, ev, latency);
    SetupNumbers(ev.meta.setup);
  }

  lemma SetupValue(f: FieldName, ev: Event, latency: Option<u64>)
    requires f.RequestType? || f.Request? || f.Value? || f.Index? || f.SetupLength?
    ensures FieldValue(f, ev, latency)
            == Ok(if ev.meta.setupPresent == 0 then None else Some(SetupField(f, ev.meta.setup)))
  {
    hide SetupField;
  }

  lemma SetupNumbers(s: Setup)
    ensures SetupField(RequestType, s) == s[0] && SetupField(Request, s) == s[1]
    ensures SetupField(Value, s) == Low2(s, 2) && SetupField(Index, s) == Low2(s, 4)
    ensures SetupField(SetupLength, s) == Low2(s, 6)
  {
    hide U16At; hide Low2;
    NumbersAre(s, 2); NumbersAre(s, 4); NumbersAre(s, 6);
  }

  lemma Tail(b: seq<u8>, at: nat)
    requires |b| == 72 && at + 2 <= 8
    ensures Low2(b[64..], at) == Low2(b, 64 + at)
  {
  }

  function Reversed(b: seq<u8>): seq<u8> { seq(|b|, i requires 0 <= i < |b| => b[|b| - 1 - i]) }

  /** Highest byte first is lowest byte first of the bytes turned round. */
  lemma {:induction false} BigEndianIs(b: seq<u8>)
    ensures FromBe(b) == FromLe(Reversed(b))
  {
    if b != [] {
      var n := |b| - 1;
      BigEndianIs(b[..n]);
      assert Reversed(b)[1..] == Reversed(b[..n]);
    }
  }

  /**
   A payload field is the number its bytes make, highest first, where the event captured all of them: inside the
   payload, and for ISO inside one frame.
   */
  lemma PayloadFieldMeans(ev: Event, latency: Option<u64>, offset: u64, width: u8)
    requires ev.meta.payloadLen <= |ev.payload|
    ensures FieldValue(Payload(offset, width), ev, latency)
            == if ev.meta.hasData != 0 && offset + width <= ev.meta.payloadLen
                  && (ev.meta.transferType == 0 ==>
                        exists d :: d in ev.iso && d.offset <= offset && offset + width <= d.offset + d.length)
               then Ok(Some(FromLe(Reversed(ev.payload[offset..offset + width]))))
               else Ok(None)
  {
    if offset + width <= ev.meta.payloadLen { BigEndianIs(ev.payload[offset..offset + width]); }
    hide FromBe;
  }
}
