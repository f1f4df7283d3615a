/**
 What the reassembler makes of each record, in terms of the records of the same event since its BEGIN: which body
 records it accepts, and exactly which ENDs release an event.
 */
module Acceptance {
  import opened Bytes
  import opened Records
  import opened Reassembly
  import opened Transport
  import opened Streams
  import opened Release

  // ----- how much data an event carries -----

  /** OUT submissions (`S`, endpoints below 0x80) and IN completions (`C`, endpoints from 0x80). */
  predicate Carries(kind: u8, endpoint: u8) { (kind == 83 && endpoint < 128) || (kind == 67 && endpoint >= 128) }

  /** Where the last non-empty frame ends, 0 without any. */
  ghost predicate FurthestEnd(frames: seq<IsoDescriptor>, n: nat) {
    && (forall d :: d in frames && d.length > 0 ==> d.offset + d.length <= n)
    && (n > 0 ==> exists d :: d in frames && d.length > 0 && d.offset + d.length == n)
  }

  ghost predicate CarriesBytes(m: EventMeta, frames: seq<IsoDescriptor>, n: nat) {
    if !Carries(m.eventType, m.endpoint) then n == 0
    else if m.transferType == 0 then FurthestEnd(frames, n)
    else if m.eventType == 83 then n == m.requestedLen
    else n == m.actualLen
  }

  lemma CarriesExpected(m: EventMeta, frames: seq<IsoDescriptor>, n: nat)
    ensures CarriesBytes(m, frames, n) <==> n == ExpectedPayload(m, frames)
  {
    SpanMeans(frames);
  }

  // ----- which ENDs release -----

  ghost predicate Supplied(h: seq<Record>, x: nat) { exists r :: r in h && CoversOffset(r, x) }

  /** The body records `h` hold everything an event with this metadata must have, and the END agrees with them. */
  ghost predicate Whole(m: EventMeta, h: seq<Record>, copied: nat, descriptors: nat, reason: nat) {
    var frames := DecodeFrames(h);
    && reason == 0 && copied == SumData(h) && descriptors == m.isoCount && |frames| == m.isoCount
    && CarriesBytes(m, frames, m.payloadLen) && (m.hasData != 0 <==> m.payloadLen != 0)
    && (m.hasData == 0 ==> SumData(h) == 0)
    && (m.hasData != 0 && m.transferType == 0 ==>
          SumData(h) == SumLengths(frames) && forall x: nat :: InFrame(frames, x) ==> Supplied(h, x))
    && (m.hasData != 0 && m.transferType != 0 ==> forall x: nat :: x < m.payloadLen ==> Supplied(h, x))
  }

  lemma FinishedIff(a: Assembly, h: seq<Record>, copied: u64, descriptors: u32, reason: u32)
    requires Holdings(Assembly(a.meta, [], map[], 0), h, a)
    ensures Finished(a, copied, descriptors, reason) <==> Whole(a.meta, h, copied, descriptors, reason)
  {
    hide ExpectedPayload; hide CarriesBytes; hide SumLengths; hide SumData; hide DecodeFrames;
    CarriesExpected(a.meta, a.iso, a.meta.payloadLen);
    assert a.iso == [] + DecodeFrames(h) == DecodeFrames(h) && a.copied == 0 + SumData(h);
    forall x: nat
      ensures x in a.content <==> Supplied(h, x)
    {
    }
    FramesWritten(a, h);
    if !IsoTransfer(a.meta) {
      AllWritten(a, h);
    }
  }

  lemma AllWritten(a: Assembly, h: seq<Record>)
    requires forall x: nat :: x in a.content <==> Supplied(h, x)
    ensures Written(a.content, 0, a.meta.payloadLen) <==> forall x: nat :: x < a.meta.payloadLen ==> Supplied(h, x)
  {
    hide Supplied;
  }

  lemma FramesWritten(a: Assembly, h: seq<Record>)
    requires forall x: nat :: x in a.content <==> Supplied(h, x)
    ensures (forall d :: d in a.iso ==> Written(a.content, d.offset, d.length))
            <==> forall x: nat :: InFrame(a.iso, x) ==> Supplied(h, x)
  {
    hide Supplied;
    if forall x: nat :: InFrame(a.iso, x) ==> Supplied(h, x) {
      forall d, x | d in a.iso && d.offset <= x < d.offset + d.length
        ensures x in a.content
      {
        assert InFrame(a.iso, x);
      }
    }
  }

  /** An END is refused, releases the event, or counts it incomplete; `h` is what the event's own records are. */
  lemma EndOutcome(rs: seq<Record>, r: Record, h: seq<Record>)
    requires Run(START, rs).Ok? && r.kind == 4
    requires var s := Run(START, rs).value.state; r.id in s.pending && Explains(h, r.id, s.pending[r.id])
    ensures var s := Run(START, rs).value.state;
            var m := s.pending[r.id].meta;
            var refused := || |r.body| != 16 || r.offset != 0
                           || (m.transferType == 0
                               && exists d :: d in DecodeFrames(h[1..]) && d.offset + d.length > m.requestedLen);
            && (Step(s, r).Err? <==> refused)
            && (!refused ==>
                  var whole := Whole(m, h[1..], U64At(r.body, 0), U32At(r.body, 8), U32At(r.body, 12));
                  && Step(s, r).value.0
                     == State(s.pending - {r.id},
                              if whole then s.stats.(complete := s.stats.complete + 1)
                              else s.stats.(incomplete := s.stats.incomplete + 1))
                  && (Step(s, r).value.1.Some? <==> whole))
  {
    hide Run; hide Assemble; hide Whole; hide Finished; hide U32At; hide U64At; hide Holdings;
    var s := Run(START, rs).value.state;
    var a := s.pending[r.id];
    EndStep(s, r);
    AssembleHolds(Assembly(a.meta, [], map[], 0), h[1..]);
    FramesAre(a, h[1..]);
    if |r.body| == 16 {
      FinishedIff(a, h[1..], U64At(r.body, 0), U32At(r.body, 8), U32At(r.body, 12));
    }
  }

  lemma FramesAre(a: Assembly, h: seq<Record>)
    requires Holdings(Assembly(a.meta, [], map[], 0), h, a)
    ensures a.iso == DecodeFrames(h)
    ensures forall x: nat :: x in a.content <==> Supplied(h, x)
    ensures forall r, x :: r in h && CoversOffset(r, x) ==>
              x in a.content && a.content[x] == ByteAt(r.offset, r.body, x)
  {
    assert a.iso == [] + DecodeFrames(h);
  }

  /** No byte the record brings was brought before, or, for ISO, each that was is the same. */
  ghost predicate Agrees(m: EventMeta, h: seq<Record>, r: Record) {
    forall q, x: nat :: q in h && CoversOffset(q, x) && CoversOffset(r, x) ==>
                          m.transferType == 0 && q.body[x - q.offset] == r.body[x - r.offset]
  }

  /** Which DATA and ISO records of an unfinished event are accepted; what follows is again explained. */
  lemma BodyOutcome(rs: seq<Record>, r: Record, h: seq<Record>)
    requires Run(START, rs).Ok? && (r.kind == 2 || r.kind == 3)
    requires var s := Run(START, rs).value.state; r.id in s.pending && Explains(h, r.id, s.pending[r.id])
    ensures var s := Run(START, rs).value.state;
            var m := s.pending[r.id].meta;
            && (r.kind == 2 ==>
                  (Step(s, r).Ok? <==> r.body != [] && r.offset + |r.body| <= m.payloadLen && Agrees(m, h[1..], r)))
            && (r.kind == 3 ==>
                  (Step(s, r).Ok? <==> && |r.body| == 16 && r.offset < m.isoCount
                                       && r.offset == |DecodeFrames(h[1..])|))
            && (Step(s, r).Ok? ==>
                  && Step(s, r).value.1.None? && Step(s, r).value.0.stats == s.stats
                  && Step(s, r).value.0.pending.Keys == s.pending.Keys
                  && Explains(h + [r], r.id, Step(s, r).value.0.pending[r.id])
                  && forall id :: id in s.pending && id != r.id ==> Step(s, r).value.0.pending[id] == s.pending[id])
  {
    hide Run; hide Holdings; hide Explains; hide Step; hide StoreData; hide StoreIso; hide Extend;
    var s := Run(START, rs).value.state;
    var a := s.pending[r.id];
    BodyStep(s, r);
    BodyAccepted(a, r, h);
    if Extend(a, r).Ok? {
      ExplainsGrows(h, r.id, a, r, Extend(a, r).value);
    }
  }

  lemma BodyAccepted(a: Assembly, r: Record, h: seq<Record>)
    requires Explains(h, r.id, a) && (r.kind == 2 || r.kind == 3)
    ensures r.kind == 2 ==> Extend(a, r) == StoreData(a, r.offset, r.body)
    ensures r.kind == 3 ==> Extend(a, r) == StoreIso(a, r.offset, r.body)
    ensures r.kind == 2 ==> (Extend(a, r).Ok? <==> r.body != [] && r.offset + |r.body| <= a.meta.payloadLen
                                                   && Agrees(a.meta, h[1..], r))
    ensures r.kind == 3 ==> (Extend(a, r).Ok? <==> && |r.body| == 16 && r.offset < a.meta.isoCount
                                                   && r.offset == |DecodeFrames(h[1..])|)
  {
    hide Assemble; hide Holdings; hide DecodeFrames;
    AssembleHolds(Assembly(a.meta, [], map[], 0), h[1..]);
    FramesAre(a, h[1..]);
    if r.kind == 2 { ClashMeans(a, r, h[1..]); }
  }

  lemma ClashMeans(a: Assembly, r: Record, h: seq<Record>)
    requires r.kind == 2 && (forall x: nat :: x in a.content <==> Supplied(h, x))
    requires forall q, x :: q in h && CoversOffset(q, x) ==>
                              x in a.content && a.content[x] == ByteAt(q.offset, q.body, x)
    ensures Clash(a, r.offset, r.body) <==> !Agrees(a.meta, h, r)
  {
    if Clash(a, r.offset, r.body) {
      var x :| x in a.content && r.offset <= x < r.offset + |r.body|
        && !(IsoTransfer(a.meta) && a.content[x] == ByteAt(r.offset, r.body, x));
      assert Supplied(h, x);
      var q :| q in h && CoversOffset(q, x);
      assert CoversOffset(r, x);
    }
  }
}
