/**
 The reassembler as the program runs it: a table of unfinished events, each with an ordered map of
 byte ranges and a spooled payload file. Every operation is proved against module Reassembly.
 */
module Reassembler {
  import opened Bytes
  import opened Records
  import opened Ranges
  import R = Reassembly

  datatype Pending = Pending(event: Event, ranges: RangeMap, copied: nat)

  // ----- abstraction -----

  ghost function Content(ranges: RangeMap, payload: seq<u8>): map<nat, u8> {
    map x | 0 <= x < |payload| && Holds(ranges, x) :: payload[x]
  }

  ghost function Abstract(p: Pending): R.Assembly {
    R.Assembly(p.event.meta, p.event.iso, Content(p.ranges, p.event.payload), p.copied)
  }

  /** The ranges are normal, and the file is exactly as long as they need, with zero holes. */
  ghost predicate Sound(p: Pending) {
    && Normal(p.ranges)
    && p.event == Event(0, p.event.meta, p.event.iso, p.event.payload, true, true)
    && (forall x: nat :: Holds(p.ranges, x) ==> x < |p.event.payload|)
    && (p.event.payload == [] || Holds(p.ranges, |p.event.payload| - 1))
    && (forall x :: 0 <= x < |p.event.payload| && !Holds(p.ranges, x) ==> p.event.payload[x] == 0)
  }

  /** The file is the content with its holes filled. */
  lemma FileIsFill(p: Pending)
    requires Sound(p)
    ensures p.event.payload == R.Fill(Abstract(p).content)
  {
    var c := Abstract(p).content;
    R.ExtentUnique(c.Keys, |p.event.payload|, R.Extent(c.Keys));
  }

  /** The representation is canonical: equal meanings have equal range maps, files and counters. */
  lemma SoundUnique(p: Pending, q: Pending)
    requires Sound(p) && Sound(q) && Abstract(p) == Abstract(q)
    ensures p == q
  {
    forall x: nat
      ensures Holds(p.ranges, x) <==> Holds(q.ranges, x)
    {
      assert Holds(p.ranges, x) <==> x in Content(p.ranges, p.event.payload);
      assert Holds(q.ranges, x) <==> x in Content(q.ranges, q.event.payload);
    }
    NormalUnique(p.ranges, q.ranges);
    FileIsFill(p);
    FileIsFill(q);
  }

  // ----- the spooled file -----

  /** Seeking past the end and writing leaves a hole of zeros. */
  function WriteAt(file: seq<u8>, offset: nat, body: seq<u8>): (r: seq<u8>)
    ensures |r| == Max(|file|, offset + |body|)
    ensures forall x :: 0 <= x < |r| ==> r[x] ==
                                         if offset <= x < offset + |body| then body[x - offset]
                                         else if x < |file| then file[x] else 0
  {
    var padded := if |file| < offset then file + seq(offset - |file|, i => 0) else file;
    padded[..offset] + body + (if offset + |body| < |padded| then padded[offset + |body|..] else [])
  }

  /** Writing a fragment and holding its interval is adding the fragment to the content. */
  lemma WriteExtends(p: Pending, q: Pending, offset: nat, body: seq<u8>)
    requires Sound(p) && body != []
    requires Extends(q.ranges, p.ranges, offset, offset + |body|)
    requires q.event == p.event.(payload := WriteAt(p.event.payload, offset, body))
    ensures Content(q.ranges, q.event.payload) == Content(p.ranges, p.event.payload) + R.Fragment(offset, body)
    ensures Sound(q)
  {
    var file := q.event.payload;
    forall x: nat
      ensures Holds(q.ranges, x) ==> x < |file|
      ensures x < |file| && !Holds(q.ranges, x) ==> file[x] == 0
    {
      assert Holds(q.ranges, x) <==> Holds(p.ranges, x) || offset <= x < offset + |body|;
    }
    var top: nat := |file| - 1;
    assert Holds(q.ranges, top) <==> Holds(p.ranges, top) || offset <= top < offset + |body|;
    ContentExtends(p, q, offset, body);
  }

  lemma ContentExtendsAt(p: Pending, q: Pending, offset: nat, body: seq<u8>, x: nat)
    requires forall y: nat :: Holds(p.ranges, y) ==> y < |p.event.payload|
    requires Holds(q.ranges, x) <==> Holds(p.ranges, x) || offset <= x < offset + |body|
    requires q.event.payload == WriteAt(p.event.payload, offset, body)
    ensures var e := Content(p.ranges, p.event.payload) + R.Fragment(offset, body);
            var d := Content(q.ranges, q.event.payload);
            (x in d <==> x in e) && (x in d ==> d[x] == e[x])
  {
    assert x in R.Fragment(offset, body) <==> offset <= x < offset + |body|;
    if offset <= x < offset + |body| {
      assert R.Fragment(offset, body)[x] == R.ByteAt(offset, body, x);
    }
  }

  lemma ContentExtends(p: Pending, q: Pending, offset: nat, body: seq<u8>)
    requires Sound(p)
    requires Extends(q.ranges, p.ranges, offset, offset + |body|)
    requires q.event == p.event.(payload := WriteAt(p.event.payload, offset, body))
    ensures Content(q.ranges, q.event.payload) == Content(p.ranges, p.event.payload) + R.Fragment(offset, body)
  {
    hide Content; hide R.Fragment; hide WriteAt;
    var c := Content(p.ranges, p.event.payload);
    var d := Content(q.ranges, q.event.payload);
    var e := c + R.Fragment(offset, body);
    forall x: nat
      ensures x in d <==> x in e
      ensures x in d ==> d[x] == e[x]
    {
      ContentExtendsAt(p, q, offset, body, x);
    }
    assert d.Keys == e.Keys;
  }

  // ----- data records -----

  /** The overlap test of one range against the fragment, by re-reading what was spooled. */
  predicate Agrees(file: seq<u8>, a: nat, b: nat, offset: nat, body: seq<u8>) {
    var from, to := Max(a, offset), Min(b, offset + |body|);
    from >= to || (to <= |file| && file[from..to] == body[from - offset..to - offset])
  }

  lemma SlicesEqual(file: seq<u8>, body: seq<u8>, offset: nat, from: nat, to: nat)
    requires offset <= from <= to <= |file| && to <= offset + |body|
    ensures file[from..to] == body[from - offset..to - offset] <==>
            forall x :: from <= x < to ==> file[x] == R.ByteAt(offset, body, x)
  {
    var u, v := file[from..to], body[from - offset..to - offset];
    forall x | from <= x < to
      ensures u[x - from] == file[x] && v[x - from] == R.ByteAt(offset, body, x)
    {
    }
    if forall x :: from <= x < to ==> file[x] == R.ByteAt(offset, body, x) {
      forall i | 0 <= i < to - from
        ensures u[i] == v[i]
      {
        assert file[from + i] == R.ByteAt(offset, body, from + i);
      }
      assert u == v;
    }
  }

  lemma AgreesPointwise(file: seq<u8>, a: nat, b: nat, offset: nat, body: seq<u8>)
    requires b <= |file|
    ensures Agrees(file, a, b, offset, body) <==>
            forall x :: a <= x < b && offset <= x < offset + |body| ==> file[x] == R.ByteAt(offset, body, x)
  {
    var from, to := Max(a, offset), Min(b, offset + |body|);
    if from < to {
      SlicesEqual(file, body, offset, from, to);
    }
  }

  /** The two rejections that only other transfer types make: a range reaches in from below, or starts inside. */
  predicate MeetsRange(ranges: RangeMap, offset: nat, end: nat)
    requires offset < end
  {
    var previous, next := Floor(ranges, offset), Ceiling(ranges, offset, end - 1);
    (previous.Some? && ranges[previous.value] > offset) || next.Some?
  }

  lemma MeetsRangeMeansHeld(ranges: RangeMap, offset: nat, end: nat)
    requires Normal(ranges) && offset < end
    ensures MeetsRange(ranges, offset, end) <==> exists x :: offset <= x < end && Holds(ranges, x)
  {
    var previous, next := Floor(ranges, offset), Ceiling(ranges, offset, end - 1);
    if previous.Some? && ranges[previous.value] > offset {
      assert Holds(ranges, offset);
    }
    if next.Some? {
      assert Holds(ranges, next.value);
    }
    if x :| offset <= x < end && Holds(ranges, x) {
      var a :| a in ranges && a <= x < ranges[a];
      assert a < offset ==> previous.Some? && a <= previous.value;
    }
  }

  /** A clash with what was written is a disagreeing range, or for other transfer types any meeting one. */
  lemma ClashMeansRejected(p: Pending, offset: nat, body: seq<u8>)
    requires Sound(p) && body != []
    ensures R.Clash(Abstract(p), offset, body) <==>
            (!IsoTransfer(p.event.meta) && MeetsRange(p.ranges, offset, offset + |body|))
            || exists a :: a in p.ranges && !Agrees(p.event.payload, a, p.ranges[a], offset, body)
  {
    var file, c := p.event.payload, Abstract(p).content;
    MeetsRangeMeansHeld(p.ranges, offset, offset + |body|);
    forall x: nat
      ensures x in c <==> Holds(p.ranges, x)
    {
    }
    forall a | a in p.ranges
      ensures p.ranges[a] <= |file|
    {
      assert Holds(p.ranges, p.ranges[a] - 1);
    }
    if a :| a in p.ranges && !Agrees(file, a, p.ranges[a], offset, body) {
      AgreesPointwise(file, a, p.ranges[a], offset, body);
      var x :| a <= x < p.ranges[a] && offset <= x < offset + |body| && file[x] != R.ByteAt(offset, body, x);
      assert Holds(p.ranges, x);
      assert x in c;
    }
    if !IsoTransfer(p.event.meta) && MeetsRange(p.ranges, offset, offset + |body|) {
      var x :| offset <= x < offset + |body| && Holds(p.ranges, x);
      assert x in c;
    }
    if R.Clash(Abstract(p), offset, body) {
      var x :| x in c && offset <= x < offset + |body|
        && !(IsoTransfer(p.event.meta) && c[x] == R.ByteAt(offset, body, x));
      var a :| a in p.ranges && a <= x < p.ranges[a];
      AgreesPointwise(file, a, p.ranges[a], offset, body);
    }
  }

  /** Ranges the merge loop never visits cannot disagree. */
  lemma UnvisitedAgrees(r: RangeMap, file: seq<u8>, a: nat, offset: nat, body: seq<u8>)
    requires Normal(r) && a in r
    requires a < FirstTouching(r, offset) || offset + |body| < a
    ensures Agrees(file, a, r[a], offset, body)
  {
    var k := Floor(r, offset);
    if a < FirstTouching(r, offset) {
      assert a <= k.value;
      assert r[a] <= offset;
    }
  }

  /** The merge loop: fails on a disagreeing overlap, else adds the interval to the map. */
  method Merge(r: RangeMap, file: seq<u8>, offset: nat, body: seq<u8>) returns (result: Result<RangeMap>)
    requires Normal(r) && body != []
    ensures result.Ok? <==> forall a :: a in r ==> Agrees(file, a, r[a], offset, body)
    ensures result.Ok? ==> Extends(result.value, r, offset, offset + |body|)
  {
    var end := offset + |body|;
    var rest: RangeMap := r;
    var start: nat, last: nat := offset, end;
    var first := FirstTouching(r, offset);
    while true
      invariant Merged(r, rest, first, offset, end, start, last)
      invariant forall a :: a in r && a !in rest ==> Agrees(file, a, r[a], offset, body)
      decreases |rest|
    {
      var k := Ceiling(rest, first, end);
      if k.None? { break; }
      var a, b := k.value, rest[k.value];
      if !Agrees(file, a, b, offset, body) { return Err; }
      MergeStep(r, rest, first, offset, end, start, last, a);
      rest := rest - {a};
      start, last := Min(start, a), Max(last, b);
    }
    forall a | a in rest
      ensures Agrees(file, a, r[a], offset, body)
    {
      UnvisitedAgrees(r, file, a, offset, body);
    }
    InsertMerged(r, rest, offset, end, start, last);
    return Ok(rest[start := last]);
  }

  method StoreData(p: Pending, offset: u64, body: seq<u8>) returns (r: Result<Pending>)
    requires Sound(p)
    ensures r.Ok? <==> R.StoreData(Abstract(p), offset, body).Ok?
    ensures r.Ok? ==> Sound(r.value) && Abstract(r.value) == R.StoreData(Abstract(p), offset, body).value
  {
    if body == [] { return Err; }
    var end := offset + |body|;
    if end >= TWO64 { return Err; }
    if end > p.event.meta.payloadLen { return Err; }
    ClashMeansRejected(p, offset, body);
    if !IsoTransfer(p.event.meta) && MeetsRange(p.ranges, offset, end) { return Err; }
    var ranges :- Merge(p.ranges, p.event.payload, offset, body);
    var q := Pending(p.event.(payload := WriteAt(p.event.payload, offset, body)), ranges, p.copied + |body|);
    WriteExtends(p, q, offset, body);
    return Ok(q);
  }

  // ----- end records -----

  lemma CoversMeansWritten(p: Pending, start: nat, len: nat)
    requires Sound(p)
    ensures Covers(p.ranges, start, len) <==> R.Written(Abstract(p).content, start, len)
  {
    CoversMeansHeld(p.ranges, start, len);
    forall x: nat
      ensures x in Abstract(p).content <==> Holds(p.ranges, x)
    {
    }
  }

  ghost predicate AllWritten(p: Pending, iso: seq<IsoDescriptor>) {
    forall d :: d in iso ==> R.Written(Abstract(p).content, d.offset, d.length)
  }

  lemma WrittenStart(p: Pending, iso: seq<IsoDescriptor>)
    ensures AllWritten(p, iso[..0])
  {
  }

  lemma WrittenStep(p: Pending, iso: seq<IsoDescriptor>, i: nat)
    requires Sound(p) && i < |iso|
    ensures AllWritten(p, iso[..i + 1]) <==> AllWritten(p, iso[..i]) && Covers(p.ranges, iso[i].offset, iso[i].length)
  {
    hide Sound; hide Covers; hide R.Written; hide Abstract;
    CoversMeansWritten(p, iso[i].offset, iso[i].length);
    assert iso[..i + 1] == iso[..i] + [iso[i]];
  }

  lemma NoFrames(iso: seq<IsoDescriptor>, limit: nat)
    ensures R.FramesInside(iso[..0], limit) && R.Span(iso[..0]) == 0 && iso[0..] == iso
            && R.SumLengths(iso[|iso|..]) == 0
  {
  }

  /** What one more frame does to the bounds, the span and the total still to come. */
  lemma FramesStep(iso: seq<IsoDescriptor>, i: nat, limit: nat)
    requires i < |iso|
    ensures R.FramesInside(iso[..i + 1], limit) <==>
            R.FramesInside(iso[..i], limit) && iso[i].offset + iso[i].length <= limit
    ensures R.Span(iso[..i + 1])
            == if iso[i].length == 0 then R.Span(iso[..i]) else Max(R.Span(iso[..i]), iso[i].offset + iso[i].length)
    ensures R.SumLengths(iso[i..]) == iso[i].length + R.SumLengths(iso[i + 1..])
  {
    var p := iso[..i + 1];
    assert p == iso[..i] + [iso[i]] && p[..i] == iso[..i];
    assert iso[i..][1..] == iso[i + 1..];
  }

  /** The descriptor checks at the end of an ISO event: bounds, span, total length and coverage. */
  method CheckFrames(p: Pending) returns (inside: bool, span: nat, total: nat, covered: bool)
    requires Sound(p)
    ensures inside <==> R.FramesInside(p.event.iso, p.event.meta.requestedLen)
    ensures span == R.Span(p.event.iso) && total == R.SumLengths(p.event.iso)
    ensures covered <==> AllWritten(p, p.event.iso)
  {
    hide AllWritten; hide Covers; hide Sound; hide R.FramesInside; hide R.Span; hide R.SumLengths;
    var iso := p.event.iso;
    inside, span, total, covered := true, 0, 0, true;
    NoFrames(iso, p.event.meta.requestedLen);
    assert AllWritten(p, iso[..0]) by { WrittenStart(p, iso); }
    for i := 0 to |iso|
      invariant inside <==> R.FramesInside(iso[..i], p.event.meta.requestedLen)
      invariant span == R.Span(iso[..i])
      invariant total + R.SumLengths(iso[i..]) == R.SumLengths(iso)
      invariant covered <==> AllWritten(p, iso[..i])
    {
      var d := iso[i];
      FramesStep(iso, i, p.event.meta.requestedLen);
      WrittenStep(p, iso, i);
      if d.offset + d.length > p.event.meta.requestedLen { inside := false; }
      if d.length != 0 { span := Max(span, d.offset + d.length); }
      total := total + d.length;
      if !Covers(p.ranges, d.offset, d.length) { covered := false; }
    }
    assert iso[..|iso|] == iso;
  }

  /** Whether an END record finishes the event; an error when an ISO frame lies outside the buffer. */
  method CheckEnd(p: Pending, body: seq<u8>) returns (r: Result<bool>)
    requires Sound(p) && |body| == 16
    ensures r.Ok? <==> !IsoTransfer(p.event.meta) || R.FramesInside(p.event.iso, p.event.meta.requestedLen)
    ensures r.Ok? ==> r.value == R.Finished(Abstract(p), U64At(body, 0), U32At(body, 8), U32At(body, 12))
  {
    var m := p.event.meta;
    var inside, span, total, covered := CheckFrames(p);
    if IsoTransfer(m) && !inside { return Err; }
    var expected: nat :=
      if !DataPhase(m) then 0
      else if IsoTransfer(m) then span
      else if m.eventType == SUBMIT then m.requestedLen
      else m.actualLen;
    CoversMeansWritten(p, 0, m.payloadLen);
    var dataComplete :=
      if m.hasData == 0 then p.copied == 0
      else if IsoTransfer(m) then p.copied == total && covered
      else Covers(p.ranges, 0, m.payloadLen);
    if || U32At(body, 12) != COMPLETE
       || U64At(body, 0) != p.copied
       || U32At(body, 8) != m.isoCount
       || |p.event.iso| != m.isoCount
       || m.payloadLen != expected
       || (m.hasData != 0) != (expected != 0)
       || !dataComplete
    {
      return Ok(false);
    }
    return Ok(true);
  }

  // ----- the reassembler object -----

  ghost function AbstractAll(pending: map<u64, Pending>): map<u64, R.Assembly> {
    map id | id in pending :: Abstract(pending[id])
  }

  lemma AbstractKeys(pending: map<u64, Pending>)
    ensures AbstractAll(pending).Keys == pending.Keys && |AbstractAll(pending)| == |pending|
  {
    hide Abstract;
    assert AbstractAll(pending).Keys == pending.Keys;
  }

  lemma AbstractAt(pending: map<u64, Pending>, id: u64)
    ensures id in AbstractAll(pending) <==> id in pending
    ensures id in pending ==> AbstractAll(pending)[id] == Abstract(pending[id])
  {
    hide Abstract;
  }

  lemma AbstractWithout(pending: map<u64, Pending>, id: u64)
    ensures AbstractAll(pending - {id}) == AbstractAll(pending) - {id}
  {
    hide Abstract;
  }

  lemma AbstractParts(p: Pending)
    ensures Abstract(p).meta == p.event.meta && Abstract(p).iso == p.event.iso
  {
  }

  lemma IsoAdded(p: Pending, d: IsoDescriptor)
    requires Sound(p)
    ensures var q := p.(event := p.event.(iso := p.event.iso + [d]));
            Sound(q) && Abstract(q) == Abstract(p).(iso := Abstract(p).iso + [d])
  {
  }

  /** A newly begun event. */
  function Empty(m: EventMeta): Pending { Pending(Event(0, m, [], [], true, true), map[], 0) }

  lemma EmptyPending(m: EventMeta)
    ensures Sound(Empty(m)) && Abstract(Empty(m)) == R.Assembly(m, [], map[], 0)
  {
    assert Abstract(Empty(m)).content == map[];
  }

  class Reassembler {
    var pending: map<u64, Pending>
    var stats: R.Stats

    ghost predicate Valid()
      reads this
    {
      forall id :: id in pending ==> Sound(pending[id])
    }

    ghost function Model(): R.State
      reads this
    {
      R.State(AbstractAll(pending), stats)
    }

    constructor ()
      ensures Valid() && Model() == R.State(map[], R.NO_STATS)
    {
      pending, stats := map[], R.NO_STATS;
    }

    /** One record: the same error, state and released event as the specification's step. */
    method Push(bytes: seq<u8>) returns (r: Result<Option<Event>>)
      requires Valid()
      modifies this
      ensures r.Ok? <==> R.Push(old(Model()), bytes).Ok?
      ensures r.Ok? ==> Valid() && R.Push(old(Model()), bytes) == Ok((Model(), r.value))
    {
      hide R.Step;
      hide Parse;
      var rec :- Parse(bytes);
      if rec.kind == RECORD_STATS {
        r := PushStats(rec);
      } else if rec.kind == RECORD_BEGIN {
        r := PushBegin(rec);
      } else if rec.kind != RECORD_DATA && rec.kind != RECORD_ISO && rec.kind != RECORD_END {
        R.UnknownStep(Model(), rec);
        return Err;
      } else if rec.id !in pending {
        R.OrphanStep(Model(), rec);
        stats := stats.(orphans := stats.orphans + 1);
        return Ok(None);
      } else {
        r := PushPending(rec);
      }
    }

    method PushStats(rec: Record) returns (r: Result<Option<Event>>)
      requires Valid() && rec.kind == RECORD_STATS
      modifies this
      ensures r.Ok? <==> R.Step(old(Model()), rec).Ok?
      ensures r.Ok? ==> Valid() && R.Step(old(Model()), rec) == Ok((Model(), r.value))
    {
      R.StatsStep(Model(), rec);
      hide R.Step;
      if rec.id != 0 || rec.offset != 0 || |rec.body| != 64 { return Err; }
      AddKernelLosses(rec.body);
      return Ok(None);
    }

    method PushBegin(rec: Record) returns (r: Result<Option<Event>>)
      requires Valid() && rec.kind == RECORD_BEGIN
      modifies this
      ensures r.Ok? <==> R.Step(old(Model()), rec).Ok?
      ensures r.Ok? ==> Valid() && R.Step(old(Model()), rec) == Ok((Model(), r.value))
    {
      R.BeginStep(Model(), rec);
      hide R.Step; hide DecodeMeta; hide Content; hide R.Fill; hide AbstractAll; hide Sound; hide Empty; hide Abstract;
      if rec.offset != 0 || rec.id in pending { return Err; }
      AbstractKeys(pending);
      if |pending| >= R.MAX_PENDING_EVENTS { return Err; }
      var meta :- DecodeMeta(rec.body);
      var empty := Empty(meta);
      EmptyPending(meta);
      Set(rec.id, empty);
      return Ok(None);
    }

    method PushPending(rec: Record) returns (r: Result<Option<Event>>)
      requires Valid() && rec.id in pending
      requires rec.kind == RECORD_DATA || rec.kind == RECORD_ISO || rec.kind == RECORD_END
      modifies this
      ensures r.Ok? <==> R.Step(old(Model()), rec).Ok?
      ensures r.Ok? ==> Valid() && R.Step(old(Model()), rec) == Ok((Model(), r.value))
    {
      if rec.kind == RECORD_END {
        r := PushEnd(rec);
        return;
      }
      R.BodyStep(Model(), rec);
      hide R.Step; hide R.StoreData; hide AbstractAll; hide Sound; hide Abstract; hide DecodeIso;
      AbstractAt(pending, rec.id);
      var p := pending[rec.id];
      AbstractParts(p);
      if rec.kind == RECORD_DATA {
        var q :- StoreData(p, rec.offset, rec.body);
        Set(rec.id, q);
        return Ok(None);
      }
      if |rec.body| != 16 || rec.offset != |p.event.iso| || rec.offset >= p.event.meta.isoCount { return Err; }
      IsoAdded(p, DecodeIso(rec.body));
      Set(rec.id, p.(event := p.event.(iso := p.event.iso + [DecodeIso(rec.body)])));
      return Ok(None);
    }

    method PushEnd(rec: Record) returns (r: Result<Option<Event>>)
      requires Valid() && rec.id in pending && rec.kind == RECORD_END
      modifies this
      ensures r.Ok? <==> R.Step(old(Model()), rec).Ok?
      ensures r.Ok? ==> Valid() && R.Step(old(Model()), rec) == Ok((Model(), r.value))
    {
      R.EndStep(Model(), rec);
      hide R.Step; hide R.Finished; hide R.FramesInside; hide R.Fill; hide Abstract; hide AbstractAll; hide Sound;
      AbstractAt(pending, rec.id);
      if |rec.body| != 16 || rec.offset != 0 { return Err; }
      var p := pending[rec.id];
      AbstractWithout(pending, rec.id);
      pending := pending - {rec.id};
      var done :- CheckEnd(p, rec.body);
      if !done {
        stats := stats.(incomplete := stats.incomplete + 1);
        return Ok(None);
      }
      stats := stats.(complete := stats.complete + 1);
      FileIsFill(p);
      return Ok(Some(p.event));
    }

    method Set(id: u64, p: Pending)
      requires Valid() && Sound(p)
      modifies this`pending
      ensures Valid() && pending == old(pending)[id := p]
      ensures AbstractAll(pending) == old(AbstractAll(pending))[id := Abstract(p)]
    {
      hide Sound;
      hide Abstract;
      pending := pending[id := p];
    }

    /** Adds the four loss counters of a kernel summary, saturating. */
    method AddKernelLosses(body: seq<u8>)
      requires |body| == 64
      modifies this`stats
      ensures stats == old(stats).(kernelLosses := R.Saturate(old(stats).kernelLosses
        + (U64At(body, 24) + U64At(body, 32) + U64At(body, 40) + U64At(body, 48))))
    {
      var total := stats.kernelLosses;
      total := R.Saturate(total + U64At(body, 24));
      total := R.Saturate(total + U64At(body, 32));
      total := R.Saturate(total + U64At(body, 40));
      total := R.Saturate(total + U64At(body, 48));
      stats := stats.(kernelLosses := total);
    }

    /** End of input: whatever is still unfinished counts as incomplete. */
    method Finish()
      requires Valid()
      modifies this
      ensures Valid() && Model() == R.State(map[], old(stats).(incomplete := old(stats).incomplete + |old(pending)|))
    {
      stats := stats.(incomplete := stats.incomplete + |pending|);
      pending := map[];
    }

    /** A requested stop discards unfinished events without counting them. */
    method StopAtLimit()
      requires Valid()
      modifies this`pending
      ensures Valid() && Model() == R.State(map[], old(stats))
    {
      pending := map[];
    }
  }
}
