/**
 What the reassembler means, without its data structures: an unfinished event is the set of bytes
 written so far, and each record either extends it, finishes it, or ends the run with an error.
 */
module Reassembly {
  import opened Bytes
  import opened Records

  const MAX_PENDING_EVENTS: nat := 4096

  datatype Stats = Stats(complete: nat, incomplete: nat, orphans: nat, kernelLosses: u64)

  const NO_STATS := Stats(0, 0, 0, 0)

  /** An unfinished event: the bytes received, by offset, and the sum of the fragment lengths. */
  datatype Assembly = Assembly(meta: EventMeta, iso: seq<IsoDescriptor>, content: map<nat, u8>, copied: nat)

  datatype State = State(pending: map<u64, Assembly>, stats: Stats)

  // ----- payload as a file -----

  /** The length of the shortest file that can hold bytes at these offsets. */
  ghost predicate IsExtent(keys: set<nat>, n: nat) {
    (forall k :: k in keys ==> k < n) && (n == 0 || n - 1 in keys)
  }

  lemma {:induction false} ExtentExists(keys: set<nat>)
    ensures exists n :: IsExtent(keys, n)
  {
    if keys == {} {
      assert IsExtent(keys, 0);
    } else {
      var x :| x in keys;
      ExtentExists(keys - {x});
      var n :| IsExtent(keys - {x}, n);
      assert forall k :: k in keys ==> k == x || k in keys - {x};
      assert IsExtent(keys, if n <= x then x + 1 else n);
    }
  }

  lemma ExtentUnique(keys: set<nat>, m: nat, n: nat)
    requires IsExtent(keys, m) && IsExtent(keys, n)
    ensures m == n
  {
  }

  ghost function Extent(keys: set<nat>): (n: nat)
    ensures IsExtent(keys, n)
  {
    ExtentExists(keys);
    var n :| IsExtent(keys, n);
    n
  }

  /** The payload file: holes between written bytes read as zero. */
  ghost function Fill(content: map<nat, u8>): (p: seq<u8>)
    ensures |p| == Extent(content.Keys)
    ensures forall x :: x in content ==> x < |p| && p[x] == content[x]
    ensures forall x :: 0 <= x < |p| && x !in content ==> p[x] == 0
  {
    seq(Extent(content.Keys), i => if i in content then content[i] else 0)
  }

  // ----- data fragments -----

  function ByteAt(offset: nat, body: seq<u8>, x: nat): u8
    requires offset <= x < offset + |body|
  {
    body[x - offset]
  }

  function Fragment(offset: nat, body: seq<u8>): map<nat, u8> {
    map x | offset <= x < offset + |body| :: ByteAt(offset, body, x)
  }

  /** Fragments may overlap only in ISO events, and only where they agree. */
  ghost predicate Clash(a: Assembly, offset: nat, body: seq<u8>) {
    exists x :: x in a.content && offset <= x < offset + |body|
                && !(IsoTransfer(a.meta) && a.content[x] == ByteAt(offset, body, x))
  }

  ghost predicate DataAccepted(a: Assembly, offset: nat, body: seq<u8>) {
    body != [] && offset + |body| <= a.meta.payloadLen && !Clash(a, offset, body)
  }

  ghost function StoreData(a: Assembly, offset: nat, body: seq<u8>): Result<Assembly> {
    if !DataAccepted(a, offset, body) then Err
    else Ok(a.(content := a.content + Fragment(offset, body), copied := a.copied + |body|))
  }

  function StoreIso(a: Assembly, offset: nat, body: seq<u8>): Result<Assembly> {
    if |body| != 16 || offset != |a.iso| || offset >= a.meta.isoCount then Err
    else Ok(a.(iso := a.iso + [DecodeIso(body)]))
  }

  // ----- completeness -----

  function SumLengths(iso: seq<IsoDescriptor>): nat {
    if iso == [] then 0 else iso[0].length + SumLengths(iso[1..])
  }

  /** The end of the last non-empty ISO frame. */
  function Span(iso: seq<IsoDescriptor>): nat {
    if iso == [] then 0 else
    var d := iso[|iso| - 1];
    var before := Span(iso[..|iso| - 1]);
    if d.length == 0 then before else Max(before, d.offset + d.length)
  }

  ghost predicate InFrame(iso: seq<IsoDescriptor>, x: nat) {
    exists d :: d in iso && d.offset <= x < d.offset + d.length
  }

  predicate FramesInside(iso: seq<IsoDescriptor>, limit: nat) {
    forall d :: d in iso ==> d.offset + d.length <= limit
  }

  function ExpectedPayload(m: EventMeta, iso: seq<IsoDescriptor>): nat {
    if !DataPhase(m) then 0
    else if IsoTransfer(m) then Span(iso)
    else if m.eventType == SUBMIT then m.requestedLen
    else m.actualLen
  }

  ghost predicate Written(content: map<nat, u8>, start: nat, len: nat) {
    forall x :: start <= x < start + len ==> x in content
  }

  ghost predicate DataComplete(a: Assembly) {
    if a.meta.hasData == 0 then a.copied == 0
    else if IsoTransfer(a.meta) then
      a.copied == SumLengths(a.iso) && forall d :: d in a.iso ==> Written(a.content, d.offset, d.length)
    else Written(a.content, 0, a.meta.payloadLen)
  }

  ghost predicate Finished(a: Assembly, copied: u64, descriptors: u32, reason: u32) {
    && reason == COMPLETE
    && copied == a.copied
    && descriptors == a.meta.isoCount
    && |a.iso| == a.meta.isoCount
    && a.meta.payloadLen == ExpectedPayload(a.meta, a.iso)
    && (a.meta.hasData != 0 <==> ExpectedPayload(a.meta, a.iso) != 0)
    && DataComplete(a)
  }

  ghost function Release(a: Assembly): Event {
    Event(0, a.meta, a.iso, Fill(a.content), true, true)
  }

  // ----- one record -----

  /** What one record does to the event it names, and what it adds to the counters. */
  datatype Reply = Reply(next: Option<Assembly>, event: Option<Event>, complete: nat, incomplete: nat, orphans: nat,
          losses: nat)

  function Quiet(next: Option<Assembly>): Reply {
    Reply(next, None, 0, 0, 0, 0)
  }

  ghost function React(a: Option<Assembly>, r: Record): Result<Reply> {
    if r.kind == RECORD_STATS then
      if r.id != 0 || r.offset != 0 || |r.body| != 64 then Err
      else Ok(Quiet(a).(losses := U64At(r.body, 24) + U64At(r.body, 32) + U64At(r.body, 40) + U64At(r.body, 48)))
    else if r.kind == RECORD_BEGIN then
      if r.offset != 0 || a.Some? then Err
      else
        var m :- DecodeMeta(r.body);
        Ok(Quiet(Some(Assembly(m, [], map[], 0))))
    else if r.kind != RECORD_DATA && r.kind != RECORD_ISO && r.kind != RECORD_END then Err
    else if a.None? then Ok(Quiet(None).(orphans := 1))
    else if r.kind == RECORD_DATA then
      var b :- StoreData(a.value, r.offset, r.body);
      Ok(Quiet(Some(b)))
    else if r.kind == RECORD_ISO then
      var b :- StoreIso(a.value, r.offset, r.body);
      Ok(Quiet(Some(b)))
    else if |r.body| != 16 || r.offset != 0 then Err
    else if IsoTransfer(a.value.meta) && !FramesInside(a.value.iso, a.value.meta.requestedLen) then Err
    else if Finished(a.value, U64At(r.body, 0), U32At(r.body, 8), U32At(r.body, 12)) then
      Ok(Reply(None, Some(Release(a.value)), 1, 0, 0, 0))
    else Ok(Reply(None, None, 0, 1, 0, 0))
  }

  function Saturate(x: nat): u64 { if x < TWO64 then x else TWO64 - 1 }

  function Lookup<T>(m: map<u64, T>, id: u64): Option<T> {
    if id in m then Some(m[id]) else None
  }

  function Put<T>(m: map<u64, T>, id: u64, v: Option<T>): map<u64, T> {
    if v.Some? then m[id := v.value] else m - {id}
  }

  function Count(s: Stats, p: Reply): Stats {
    Stats(s.complete + p.complete, s.incomplete + p.incomplete, s.orphans + p.orphans,
      Saturate(s.kernelLosses + p.losses))
  }

  function Commit(s: State, id: u64, p: Reply): State {
    State(Put(s.pending, id, p.next), Count(s.stats, p))
  }

  /** One record, with no bound on the number of unfinished events. */
  ghost function Unbounded(s: State, r: Record): Result<(State, Option<Event>)> {
    var p :- React(Lookup(s.pending, r.id), r);
    Ok((Commit(s, r.id, p), p.event))
  }

  /** `push` on a parsed record. */
  ghost function Step(s: State, r: Record): Result<(State, Option<Event>)> {
    if r.kind == RECORD_BEGIN && |s.pending| >= MAX_PENDING_EVENTS then Err else Unbounded(s, r)
  }

  /** `push` on the bytes of a record. */
  ghost function Push(s: State, bytes: seq<u8>): Result<(State, Option<Event>)> {
    var r :- Parse(bytes);
    Step(s, r)
  }

  // ----- the step on each kind of record -----

  /** A summary adds the four kinds of loss it counts. */
  lemma StatsStep(s: State, r: Record)
    requires r.kind == 5
    ensures Step(s, r) ==
            if r.id != 0 || r.offset != 0 || |r.body| != 64 then Err
            else Ok((s.(stats := s.stats.(kernelLosses := Saturate(s.stats.kernelLosses
                     + (U64At(r.body, 24) + U64At(r.body, 32) + U64At(r.body, 40) + U64At(r.body, 48))))), None))
  {
    assert Put(s.pending, r.id, Lookup(s.pending, r.id)) == s.pending;
  }

  /** A new id with acceptable metadata begins an event; a fourth argument against it is 4096 events under way. */
  lemma BeginStep(s: State, r: Record)
    requires r.kind == 1
    ensures Step(s, r) ==
            if r.offset != 0 || r.id in s.pending || |s.pending| >= 4096 || DecodeMeta(r.body).Err?
            then Err
            else Ok((s.(pending := s.pending[r.id := Assembly(DecodeMeta(r.body).value, [], map[], 0)]), None))
  {
    hide DecodeMeta;
  }

  lemma UnknownStep(s: State, r: Record)
    requires r.kind > 5 || r.kind < 1
    ensures Step(s, r).Err?
  {
  }

  /** A record of an event that is not under way only counts as an orphan. */
  lemma OrphanStep(s: State, r: Record)
    requires 2 <= r.kind <= 4
    requires r.id !in s.pending
    ensures Step(s, r) == Ok((s.(stats := s.stats.(orphans := s.stats.orphans + 1)), None))
  {
    assert s.pending - {r.id} == s.pending;
  }

  lemma BodyStep(s: State, r: Record)
    requires (r.kind == RECORD_DATA || r.kind == RECORD_ISO) && r.id in s.pending
    ensures var b := if r.kind == RECORD_DATA then StoreData(s.pending[r.id], r.offset, r.body)
                     else StoreIso(s.pending[r.id], r.offset, r.body);
            Step(s, r) == if b.Err? then Err else Ok((s.(pending := s.pending[r.id := b.value]), None))
  {
    hide StoreData;
    hide StoreIso;
  }

  lemma EndStep(s: State, r: Record)
    requires r.kind == RECORD_END && r.id in s.pending
    ensures var a := s.pending[r.id];
            Step(s, r) ==
            if |r.body| != 16 || r.offset != 0 || (IsoTransfer(a.meta) && !FramesInside(a.iso, a.meta.requestedLen))
            then Err
            else if Finished(a, U64At(r.body, 0), U32At(r.body, 8), U32At(r.body, 12)) then
              Ok((State(s.pending - {r.id}, s.stats.(complete := s.stats.complete + 1)), Some(Release(a))))
            else Ok((State(s.pending - {r.id}, s.stats.(incomplete := s.stats.incomplete + 1)), None))
  {
    hide Finished;
    hide FramesInside;
    hide Release;
  }
}
