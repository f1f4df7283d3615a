/**
 From the URB to the consumer: any number of observations, each failing wherever it may, their
 records interleaved in any way, reach the reassembler.
 */
module EndToEnd {
  import opened Bytes
  import opened Records
  import opened Reassembly
  import opened Transport
  import opened Streams
  import opened Emission
  import opened Delivery

  function With(c: Config, id: u64, a: Assembly): Config {
    Config(State(c.state.pending[id := a], c.state.stats), c.released)
  }

  function Without(c: Config, id: u64, e: Option<Event>): Config {
    var t := c.state.stats;
    Config(State(c.state.pending - {id},
                 if e.Some? then t.(complete := t.complete + 1) else t.(incomplete := t.incomplete + 1)),
           Log(c, id, e))
  }

  lemma TakeBegin(c: Config, id: u64, u: Urb)
    requires ValidUrb(u) && Emittable(u) && u.meta.device <= 127 && id !in c.state.pending
    ensures Take(c, BeginRecord(id, FinalMeta(u))) == Ok(With(c, id, Opening(u)))
  {
    hide EncodeMeta; hide DecodeMeta;
    MetaRoundTrip(FinalMeta(u));
    BeginStep(c.state, BeginRecord(id, FinalMeta(u)));
    hide Step;
  }

  /** A device number the decoder rejects is the one thing that makes a fresh observation fatal. */
  lemma BeginAcceptedIff(c: Config, id: u64, u: Urb)
    requires ValidUrb(u) && Emittable(u) && id !in c.state.pending
    ensures Take(c, BeginRecord(id, FinalMeta(u))).Ok? <==> u.meta.device <= 127
  {
    MetaRoundTrip(FinalMeta(u));
  }

  lemma TakeBody(c: Config, r: Record, b: Assembly)
    requires r.id in c.state.pending && IsBody(r) && Extend(c.state.pending[r.id], r) == Ok(b)
    ensures Take(c, r) == Ok(With(c, r.id, b))
  {
    BodyStep(c.state, r);
  }

  lemma TakeEnd(c: Config, id: u64, a: Assembly, copied: u64, descriptors: u32, reason: u32)
    requires id in c.state.pending && c.state.pending[id] == a
    requires IsoTransfer(a.meta) ==> FramesInside(a.iso, a.meta.requestedLen)
    ensures Take(c, EndRecord(id, copied, descriptors, reason))
            == Ok(Without(c, id, if Finished(a, copied, descriptors, reason) then Some(Release(a)) else None))
  {
    EndRoundTrip(copied, descriptors, reason);
    EndStep(c.state, EndRecord(id, copied, descriptors, reason));
  }

  /** The body records of one event move only that event. */
  lemma {:induction false} RunBody(c: Config, id: u64, a: Assembly, rs: seq<Record>)
    requires id in c.state.pending && c.state.pending[id] == a
    requires AllBody(rs, id) && Assemble(a, rs).Ok?
    ensures Run(c, rs) == Ok(With(c, id, Assemble(a, rs).value))
    decreases rs
  {
    hide Extend;
    if rs == [] {
      assert With(c, id, a) == c;
    } else {
      var b := Extend(a, rs[0]).value;
      TakeBody(c, rs[0], b);
      hide Take;
      var d := With(c, id, b);
      RunBody(d, id, b, rs[1..]);
      assert With(d, id, Assemble(b, rs[1..]).value) == With(c, id, Assemble(b, rs[1..]).value);
    }
  }

  lemma RunFromBegin(c: Config, id: u64, begin: Record, o: Assembly, p: seq<Record>)
    requires Take(c, begin) == Ok(With(c, id, o))
    requires AllBody(p, id) && Assemble(o, p).Ok?
    ensures Run(c, [begin] + p) == Ok(With(c, id, Assemble(o, p).value))
  {
    var d := With(c, id, o);
    RunBody(d, id, o, p);
    assert ([begin] + p)[1..] == p;
    hide Take;
    assert With(d, id, Assemble(o, p).value) == With(c, id, Assemble(o, p).value);
  }

  /** BEGIN and some of the body. */
  lemma RunOpened(c: Config, memory: Memory, id: u64, u: Urb, k: nat)
    requires ValidUrb(u) && Emittable(u) && |u.frames| < TWO32 && u.meta.device <= 127 && id !in c.state.pending
    requires k <= |Body(memory, id, u)|
    ensures var p := Body(memory, id, u)[..k];
            AllBody(p, id) && Assemble(Opening(u), p).Ok?
            && Run(c, [BeginRecord(id, FinalMeta(u))] + p) == Ok(With(c, id, Assemble(Opening(u), p).value))
  {
    PrefixAssembles(memory, id, u, k);
    TakeBegin(c, id, u);
    RunFromBegin(c, id, BeginRecord(id, FinalMeta(u)), Opening(u), Body(memory, id, u)[..k]);
  }

  lemma RunThenEnd(c: Config, rs: seq<Record>, d: Config, r: Record)
    requires Run(c, rs) == Ok(d)
    ensures Run(c, rs + [r]) == Take(d, r)
  {
    RunAppend(c, rs, [r]);
    assert [r][1..] == [];
    if Take(d, r).Ok? {
      assert Run(Take(d, r).value, []) == Take(d, r);
    }
  }

  /** The complete stream releases exactly the URB's event. */
  lemma ExactRuns(c: Config, memory: Memory, id: u64, u: Urb, translated: bool, records: seq<Record>)
    requires ValidUrb(u) && u.meta.device <= 127 && id !in c.state.pending
    requires ExactStream(memory, id, u, translated, records)
    ensures Run(c, records).Ok?
    ensures var d := Run(c, records).value;
            && d.state == State(c.state.pending, c.state.stats.(complete := c.state.stats.complete + 1))
            && d.released == c.released[id := Released(c, id) + [ExactEvent(memory, u)]]
  {
    var body := Body(memory, id, u);
    assert body[..|body|] == body;
    RunOpened(c, memory, id, u, |body|);
    CompleteBodyReleases(memory, id, u, translated);
    var b := Assemble(Opening(u), body).value;
    PrefixAssembles(memory, id, u, |body|);
    CompleteEnd(c, id, u, b, ExactEvent(memory, u), [BeginRecord(id, FinalMeta(u))] + body);
  }

  lemma CompleteEnd(c: Config, id: u64, u: Urb, b: Assembly, e: Event, rs: seq<Record>)
    requires Emittable(u) && |u.frames| < TWO32 && id !in c.state.pending && CopiedBytes(u) < TWO64
    requires Run(c, rs) == Ok(With(c, id, b)) && b.meta == FinalMeta(u)
    requires IsoTransfer(u.meta) ==> b.iso <= u.frames
    requires Finished(b, CopiedBytes(u), |u.frames|, COMPLETE) && Release(b) == e
    ensures Run(c, rs + [EndRecord(id, CopiedBytes(u), |u.frames|, COMPLETE)])
            == Ok(Config(State(c.state.pending, c.state.stats.(complete := c.state.stats.complete + 1)),
                         c.released[id := Released(c, id) + [e]]))
  {
    hide Finished; hide Release; hide CopiedBytes; hide EncodeEnd; hide Run;
    var d := With(c, id, b);
    assert IsoTransfer(u.meta) ==> forall f :: f in b.iso ==> f in u.frames;
    TakeEnd(d, id, b, CopiedBytes(u), |u.frames|, COMPLETE);
    hide Take;
    RunThenEnd(c, rs, d, EndRecord(id, CopiedBytes(u), |u.frames|, COMPLETE));
    assert d.state.pending - {id} == c.state.pending;
  }

  /** A truncated stream releases nothing, is never an error, and touches no other event. */
  ghost predicate Harmless(c: Config, d: Config, id: u64) {
    && d.released == c.released
    && d.state.pending - {id} == c.state.pending
    && d.state.stats.(incomplete := c.state.stats.incomplete) == c.state.stats
    && d.state.stats.incomplete + (if id in d.state.pending then 1 else 0) <= c.state.stats.incomplete + 1
  }

  lemma TruncationRuns(c: Config, memory: Memory, id: u64, u: Urb, k: nat, copied: u64, descriptors: u32, reason: u32,
          records: seq<Record>)
    requires ValidUrb(u) && u.meta.device <= 127 && id !in c.state.pending
    requires Emittable(u) && |u.frames| < TWO32 && k <= |Body(memory, id, u)|
    requires Truncation(memory, id, u, k, copied, descriptors, reason, records)
    ensures Run(c, records).Ok? && Harmless(c, Run(c, records).value, id)
  {
    var p := Body(memory, id, u)[..k];
    var prior := [BeginRecord(id, FinalMeta(u))] + p;
    RunOpened(c, memory, id, u, k);
    PrefixAssembles(memory, id, u, k);
    var a := Assemble(Opening(u), p).value;
    OpenIsHarmless(c, id, a);
    if records != prior {
      AdmittedEnd(c, id, u, a, prior, copied, descriptors, reason);
    }
  }

  lemma OpenIsHarmless(c: Config, id: u64, a: Assembly)
    requires id !in c.state.pending
    ensures Harmless(c, With(c, id, a), id)
  {
    assert With(c, id, a).state.pending - {id} == c.state.pending;
  }

  lemma AdmittedEnd(c: Config, id: u64, u: Urb, a: Assembly, rs: seq<Record>, copied: u64, descriptors: u32,
          reason: u32)
    requires Emittable(u) && id !in c.state.pending && reason != COMPLETE
    requires Run(c, rs) == Ok(With(c, id, a)) && a.meta == FinalMeta(u)
    requires IsoTransfer(u.meta) ==> a.iso <= u.frames
    ensures Run(c, rs + [EndRecord(id, copied, descriptors, reason)]).Ok?
    ensures Harmless(c, Run(c, rs + [EndRecord(id, copied, descriptors, reason)]).value, id)
  {
    var d := With(c, id, a);
    assert IsoTransfer(u.meta) ==> forall f :: f in a.iso ==> f in u.frames;
    assert !Finished(a, copied, descriptors, reason);
    TakeEnd(d, id, a, copied, descriptors, reason);
    hide Take;
    RunThenEnd(c, rs, d, EndRecord(id, copied, descriptors, reason));
    assert d.state.pending - {id} == c.state.pending;
    assert c.state.pending - {id} == c.state.pending;
  }

  // ----- many observations -----

  /** One observation: where its data lives, the record id it was given, what it emitted and lost. */
  datatype Session = Session(id: u64, memory: Memory, urb: Urb, translated: bool, records: seq<Record>, losses: nat)

  ghost predicate ValidSession(s: Session) {
    && ValidUrb(s.urb) && s.urb.meta.device <= 127
    && Observation(s.memory, s.id, s.urb, s.translated, s.records, s.losses)
  }

  ghost predicate DistinctIds(ss: seq<Session>) {
    forall i, j :: 0 <= i < j < |ss| ==> ss[i].id != ss[j].id
  }

  function Flatten(ss: seq<Session>): seq<Record> {
    if ss == [] then [] else ss[0].records + Flatten(ss[1..])
  }

  /** Exactly the event if its whole stream reached the ring, else nothing and a counted loss. */
  ghost predicate Delivered(c: Config, s: Session) {
    if ExactStream(s.memory, s.id, s.urb, s.translated, s.records)
    then Released(c, s.id) == [ExactEvent(s.memory, s.urb)]
    else Released(c, s.id) == [] && s.losses > 0
  }

  lemma SessionRuns(c: Config, s: Session)
    requires ValidSession(s) && s.id !in c.state.pending && Released(c, s.id) == []
    ensures Run(c, s.records).Ok?
    ensures var d := Run(c, s.records).value;
            && Delivered(d, s)
            && d.state.stats.orphans == c.state.stats.orphans
            && (forall id :: id != s.id ==> Released(d, id) == Released(c, id))
            && (forall id :: id != s.id ==> (id in d.state.pending <==> id in c.state.pending))
  {
    hide Run; hide Body; hide Truncation; hide ExactEvent; hide ValidUrb;
    if s.records == [] { RunNothing(c); }
    if ExactStream(s.memory, s.id, s.urb, s.translated, s.records) {
      hide ExactStream;
      ExactRuns(c, s.memory, s.id, s.urb, s.translated, s.records);
    } else if s.records != [] {
      var k, copied, descriptors, reason :| 0 <= k <= |Body(s.memory, s.id, s.urb)|
        && Truncation(s.memory, s.id, s.urb, k, copied, descriptors, reason, s.records);
      TruncationRuns(c, s.memory, s.id, s.urb, k, copied, descriptors, reason, s.records);
      var d := Run(c, s.records).value;
      assert forall id :: id != s.id ==> (id in d.state.pending <==> id in d.state.pending - {s.id});
    }
  }

  lemma RunNothing(c: Config)
    ensures Run(c, []) == Ok(c)
  {
  }

  lemma DistinctRest(ss: seq<Session>)
    requires ss != [] && DistinctIds(ss)
    ensures DistinctIds(ss[1..]) && forall t :: t in ss[1..] ==> t.id != ss[0].id
  {
    var rest := ss[1..];
    forall i | 0 <= i < |rest|
      ensures rest[i].id != ss[0].id && forall j :: i < j < |rest| ==> rest[i].id != rest[j].id
    {
      assert rest[i] == ss[i + 1];
      assert forall j :: i < j < |rest| ==> rest[j] == ss[j + 1];
    }
  }

  lemma {:induction false} SessionsRun(c: Config, ss: seq<Session>)
    requires DistinctIds(ss)
    requires forall s :: s in ss ==> ValidSession(s) && s.id !in c.state.pending && Released(c, s.id) == []
    ensures Run(c, Flatten(ss)).Ok?
    ensures var d := Run(c, Flatten(ss)).value;
            && (forall s :: s in ss ==> Delivered(d, s))
            && d.state.stats.orphans == c.state.stats.orphans
            && (forall id :: (forall s :: s in ss ==> s.id != id) ==> Released(d, id) == Released(c, id))
    decreases ss
  {
    hide ValidSession; hide ExactEvent; hide Run;
    if ss == [] {
      assert Run(c, []) == Ok(c) by { RunNothing(c); }
    } else {
      var s, rest := ss[0], ss[1..];
      SessionRuns(c, s);
      var d := Run(c, s.records).value;
      RunAppend(c, s.records, Flatten(rest));
      DistinctRest(ss);
      SessionsRun(d, rest);
    }
  }

  /**
   Exact event or reported loss. However the records of any number of observations are interleaved,
   the reassembler never fails and never sees an orphan; each observation's event is released exactly
   once and byte for byte, or not at all and then a kernel loss counter says so; and nothing else is
   released. With the limit on unfinished events the same holds as long as the limit is not reached.
   */
  lemma ExactEventOrReportedLoss(ss: seq<Session>, rs: seq<Record>)
    requires DistinctIds(ss) && forall s :: s in ss ==> ValidSession(s)
    requires SameProjections(rs, Flatten(ss))
    ensures Run(START, rs).Ok?
    ensures WithinCapacity(START, rs) ==> RunBounded(START, rs) == Run(START, rs)
    ensures var d := Run(START, rs).value;
            && (forall s :: s in ss ==> Delivered(d, s))
            && (forall id :: (forall s :: s in ss ==> s.id != id) ==> Released(d, id) == [])
            && d.state.stats.orphans == 0
  {
    SessionsRun(START, ss);
    NonInterference(START, rs, Flatten(ss));
    BoundedRuns(START, rs);
  }

  /** Events begun by a stream that has been read from the start. */
  function Begun(s: State): nat { s.stats.complete + s.stats.incomplete + |s.pending| }

  lemma ExactBegins(s: Session)
    requires ValidSession(s) && ExactStream(s.memory, s.id, s.urb, s.translated, s.records)
    ensures Run(START, s.records).Ok? && Begun(Run(START, s.records).value.state) == 1
  {
    hide ExactEvent; hide ExactStream; hide Observation; hide Run;
    ExactRuns(START, s.memory, s.id, s.urb, s.translated, s.records);
  }

  lemma TruncationBegins(s: Session, k: nat, copied: u64, descriptors: u32, reason: u32)
    requires ValidUrb(s.urb) && s.urb.meta.device <= 127
    requires Emittable(s.urb) && |s.urb.frames| < TWO32 && k <= |Body(s.memory, s.id, s.urb)|
    requires Truncation(s.memory, s.id, s.urb, k, copied, descriptors, reason, s.records)
    ensures Run(START, s.records).Ok? && Begun(Run(START, s.records).value.state) <= 1
  {
    hide Truncation; hide Run; hide Body; hide ValidUrb; hide Emittable;
    TruncationRuns(START, s.memory, s.id, s.urb, k, copied, descriptors, reason, s.records);
    OnlyOne(START, Run(START, s.records).value, s.id);
  }

  /** One observation begins at most one event. */
  lemma SessionBegins(s: Session)
    requires ValidSession(s)
    ensures CountKind(s.records, RECORD_BEGIN) <= 1
  {
    hide ExactStream; hide Truncation; hide Run; hide Body; hide ValidUrb;
    if ExactStream(s.memory, s.id, s.urb, s.translated, s.records) {
      ExactBegins(s);
      Accounting(START, s.records);
    } else if s.records != [] {
      var k, copied, descriptors, reason :| 0 <= k <= |Body(s.memory, s.id, s.urb)|
        && Truncation(s.memory, s.id, s.urb, k, copied, descriptors, reason, s.records);
      TruncationBegins(s, k, copied, descriptors, reason);
      Accounting(START, s.records);
    }
  }

  lemma OnlyOne(c: Config, d: Config, id: u64)
    requires c.state.pending == map[] && d.state.pending - {id} == c.state.pending
    ensures |d.state.pending| == if id in d.state.pending then 1 else 0
  {
    assert d.state.pending.Keys - {id} == (d.state.pending - {id}).Keys == {};
    assert d.state.pending.Keys == if id in d.state.pending then {id} else {};
  }

  lemma {:induction false} SessionsBegin(ss: seq<Session>)
    requires forall s :: s in ss ==> ValidSession(s)
    ensures CountKind(Flatten(ss), RECORD_BEGIN) <= |ss|
  {
    hide ValidSession;
    if ss != [] {
      CountAppend(ss[0].records, Flatten(ss[1..]), RECORD_BEGIN);
      SessionBegins(ss[0]);
      SessionsBegin(ss[1..]);
    }
  }

  /** Interleaving does not change how many events begin, so up to 4096 observations always fit. */
  lemma SessionsFit(ss: seq<Session>, rs: seq<Record>)
    requires DistinctIds(ss) && (forall s :: s in ss ==> ValidSession(s)) && |ss| <= 4096
    requires SameProjections(rs, Flatten(ss))
    ensures WithinCapacity(START, rs)
  {
    hide ValidSession; hide Delivered;
    SessionsRun(START, ss);
    NonInterference(START, rs, Flatten(ss));
    Accounting(START, rs);
    Accounting(START, Flatten(ss));
    SessionsBegin(ss);
    FewBegins(START, rs);
  }

  /** What the wire adds: the bytes of a record, with any padding after them, act as the record. */
  lemma WireTransparent(s: State, r: Record, padding: seq<u8>)
    requires |r.body| <= CHUNK_SIZE
    ensures Push(s, Encode(r) + padding) == Step(s, r)
  {
    RecordRoundTrip(r, padding);
  }
}
