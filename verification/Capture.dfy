/**
 A whole capture: the probes' run hands out identities, each emission publishes its records, the ring interleaves
 them, and the reassembler turns them back into events.
 */
module Capture {
  import opened Bytes
  import opened Records
  import opened Reassembly
  import opened Streams
  import opened Emission
  import opened EndToEnd
  import F = InFlight
  import Probe

  /** The emissions that got as far as drawing a record id, in order. */
  function Published(log: seq<F.Emission>): seq<F.Emission> {
    if log == [] then [] else
    Published(log[..|log| - 1]) + (if log[|log| - 1].event.Some? then [log[|log| - 1]] else [])
  }

  /** What one emission puts on the ring: records under its id, of a URB with its identity, kind and status. */
  ghost predicate SessionOf(e: F.Emission, s: Session) {
    && e.event.Some? && s.id == F.Id(e.event.value)
    && s.urb.meta.urbId == F.Id(e.ticket) && s.urb.meta.eventType == e.kind && s.urb.meta.status == e.status
    && ValidSession(s)
  }

  ghost predicate Observes(log: seq<F.Emission>, ss: seq<Session>) {
    |ss| == |Published(log)| && forall k :: 0 <= k < |ss| ==> SessionOf(Published(log)[k], ss[k])
  }

  lemma {:induction false} PublishedIncrease(log: seq<F.Emission>, limit: nat)
    requires forall j :: 0 <= j < |log| && log[j].event.Some? ==> log[j].event.value < limit
    requires forall i, j :: 0 <= i < j < |log| && log[i].event.Some? && log[j].event.Some? ==>
                              log[i].event.value < log[j].event.value
    ensures forall k :: 0 <= k < |Published(log)| ==>
                          Published(log)[k].event.Some? && Published(log)[k].event.value < limit
    ensures forall k, l :: 0 <= k < l < |Published(log)| ==>
                             Published(log)[k].event.value < Published(log)[l].event.value
  {
    if log != [] {
      var before, last := log[..|log| - 1], log[|log| - 1];
      assert forall j :: 0 <= j < |before| ==> before[j] == log[j];
      PublishedIncrease(before, if last.event.Some? then last.event.value else limit);
    }
  }

  lemma PublishedApart(ps: seq<F.Firing>, ss: seq<Session>)
    requires F.Run(ps).sequence < TWO64 && Observes(F.Run(ps).log, ss)
    ensures DistinctIds(ss) && forall s :: s in ss ==> ValidSession(s)
  {
    hide F.Run; hide ValidSession;
    var s := F.Run(ps);
    F.RunEventsFresh(ps);
    PublishedIncrease(s.log, s.sequence + 1);
    forall i, j | 0 <= i < j < |ss|
      ensures ss[i].id != ss[j].id
    {
      assert SessionOf(Published(s.log)[i], ss[i]) && SessionOf(Published(s.log)[j], ss[j]);
    }
  }

  // ----- losses -----

  function TotalLosses(ss: seq<Session>): nat {
    if ss == [] then 0 else ss[0].losses + TotalLosses(ss[1..])
  }

  /** The kernel's loss counters: those of the in-flight table and those of every observation. */
  ghost function KernelLosses(ps: seq<F.Firing>, ss: seq<Session>): nat {
    F.Run(ps).counters.readErrors + F.Run(ps).counters.stateErrors + TotalLosses(ss)
  }

  /** Observations of which nothing was released. */
  function Missing(d: Config, ss: seq<Session>): nat {
    if ss == [] then 0 else (if Released(d, ss[0].id) == [] then 1 else 0) + Missing(d, ss[1..])
  }

  lemma {:induction false} MissingPaid(d: Config, ss: seq<Session>)
    requires forall s :: s in ss ==> Delivered(d, s)
    ensures Missing(d, ss) <= TotalLosses(ss)
  {
    hide ExactEvent;
    if ss != [] {
      assert Delivered(d, ss[0]);
      MissingPaid(d, ss[1..]);
    }
  }

  lemma {:induction false} UnpublishedPaid(ps: seq<F.Firing>)
    ensures |Published(F.Run(ps).log)| <= |F.Run(ps).log| <= |Published(F.Run(ps).log)| + F.Run(ps).counters.readErrors
  {
    if ps != [] {
      var q, p := ps[..|ps| - 1], ps[|ps| - 1];
      UnpublishedPaid(q);
      NextPaid(F.Run(q), p);
      hide F.Next;
    }
  }

  lemma NextPaid(s: F.State, p: F.Firing)
    requires |Published(s.log)| <= |s.log| <= |Published(s.log)| + s.counters.readErrors
    ensures var t := F.Next(s, p); |Published(t.log)| <= |t.log| <= |Published(t.log)| + t.counters.readErrors
  {
    hide Published;
    var t := F.Next(s, p);
    if t.log != s.log {
      PublishedAppend(s.log, t.log[|s.log|]);
      assert t.log == s.log + [t.log[|s.log|]];
    }
  }

  lemma PublishedAppend(log: seq<F.Emission>, e: F.Emission)
    ensures Published(log + [e]) == Published(log) + (if e.event.Some? then [e] else [])
  {
    assert (log + [e])[..|log|] == log;
  }

  // ----- the capture -----

  /** The event of an emission, with its identity, kind and status and exactly its data; or nothing, and a loss. */
  ghost predicate DeliveredAs(d: Config, e: F.Emission, s: Session) {
    if ExactStream(s.memory, s.id, s.urb, s.translated, s.records) then
      && Released(d, s.id) == [ExactEvent(s.memory, s.urb)]
      && var m := ExactEvent(s.memory, s.urb).meta;
         m.urbId == F.Id(e.ticket) && m.eventType == e.kind && m.status == e.status
    else Released(d, s.id) == [] && s.losses > 0
  }

  lemma DeliveredWithIdentity(d: Config, e: F.Emission, s: Session)
    requires SessionOf(e, s) && Delivered(d, s)
    ensures DeliveredAs(d, e, s)
  {
    hide ValidSession;
  }

  /**
   What the reassembler makes of the ring `rs`: no fatal error, no orphan, each emission's event released once and
   exactly, or not at all; never more emissions missing than the kernel's loss counters say; and nothing else
   released. Up to 4096 observations never meet the limit.
   */
  ghost predicate Captured(ps: seq<F.Firing>, ss: seq<Session>, rs: seq<Record>) {
    && Run(START, rs).Ok?
    && (|ss| <= 4096 ==> RunBounded(START, rs) == Run(START, rs))
    && |ss| == |Published(F.Run(ps).log)|
    && var d := Run(START, rs).value;
       && (forall k :: 0 <= k < |ss| ==> DeliveredAs(d, Published(F.Run(ps).log)[k], ss[k]))
       && (forall id :: (forall s :: s in ss ==> s.id != id) ==> Released(d, id) == [])
       && d.state.stats.orphans == 0
       && |F.Run(ps).log| - |ss| + Missing(d, ss) <= KernelLosses(ps, ss)
  }

  /** Whatever the observations put on the ring, in whatever interleaving, it is captured exactly. */
  lemma CaptureExact(ps: seq<F.Firing>, ss: seq<Session>, rs: seq<Record>)
    requires F.Run(ps).sequence < TWO64 && Observes(F.Run(ps).log, ss)
    requires SameProjections(rs, Flatten(ss))
    ensures Captured(ps, ss, rs)
  {
    hide F.Run; hide ValidSession; hide Delivered; hide DeliveredAs; hide SessionOf; hide Run; hide RunBounded;
    hide SameProjections; hide DistinctIds; hide WithinCapacity;
    var log := F.Run(ps).log;
    PublishedApart(ps, ss);
    ExactEventOrReportedLoss(ss, rs);
    if |ss| <= 4096 { SessionsFit(ss, rs); }
    var d := Run(START, rs).value;
    forall k | 0 <= k < |ss|
      ensures DeliveredAs(d, Published(log)[k], ss[k])
    {
      DeliveredWithIdentity(d, Published(log)[k], ss[k]);
    }
    MissingPaid(d, ss);
    UnpublishedPaid(ps);
  }

  // ----- the probes, from their firing to the ring -----

  /** What one observation meets: memory, the calls that fail, whether page translation is set up, and the URB. */
  datatype Scene = Scene(memory: Memory, faults: nat -> bool, translated: bool, urb: Urb)

  ghost predicate ValidScene(x: Scene) { ValidUrb(x.urb) && x.urb.meta.device <= 127 }

  /** The URB under the identity, kind and status of its emission. */
  function Stamped(u: Urb, e: F.Emission): Urb {
    u.(meta := u.meta.(urbId := F.Id(e.ticket), eventType := e.kind, status := e.status))
  }

  /** No call fails and the buffer is one that the program copies. */
  ghost predicate Healthy(x: Scene, e: F.Emission) {
    var u := Stamped(x.urb, e);
    (forall n: nat :: !x.faults(n)) && Emittable(u) && Supported(u, x.translated)
  }

  ghost predicate Shows(x: Scene, e: F.Emission, s: Session) {
    && SessionOf(e, s) && s.memory == x.memory && s.urb == Stamped(x.urb, e) && s.translated == x.translated
    && (Healthy(x, e) ==> s.losses == 0)
  }

  lemma StampedValid(e: F.Emission, x: Scene)
    requires (e.kind == SUBMIT || F.Terminal(e.kind)) && ValidScene(x)
    ensures ValidUrb(Stamped(x.urb, e)) && Stamped(x.urb, e).meta.device <= 127
  {
  }

  lemma ShowsWhatEmits(e: F.Emission, x: Scene, records: seq<Record>, lost: Probe.Losses)
    requires e.event.Some? && (e.kind == SUBMIT || F.Terminal(e.kind)) && ValidScene(x)
    requires Observation(x.memory, F.Id(e.event.value), Stamped(x.urb, e), x.translated, records,
                         lost.Total() - Probe.NO_LOSSES.Total())
    requires Healthy(x, e) ==> lost.Total() == Probe.NO_LOSSES.Total()
    ensures Shows(x, e,
                  Session(F.Id(e.event.value), x.memory, Stamped(x.urb, e), x.translated, records, lost.Total()))
  {
    hide Observation; hide Healthy;
    StampedValid(e, x);
  }

  lemma HealthyMeans(e: F.Emission, x: Scene)
    requires Healthy(x, e)
    ensures forall n: nat :: !x.faults(n)
    ensures Emittable(Stamped(x.urb, e)) && Supported(Stamped(x.urb, e), x.translated)
  {
    hide Emittable; hide Supported;
  }

  /** `emit`, as a probe calls it. */
  method ObserveOne(e: F.Emission, x: Scene) returns (s: Session)
    requires e.event.Some? && (e.kind == SUBMIT || F.Terminal(e.kind)) && ValidScene(x)
    ensures Shows(x, e, s)
  {
    hide *;
    var id, u := F.Id(e.event.value), Stamped(x.urb, e);
    StampedValid(e, x);
    var probe := new Probe.Emitter(x.memory, x.faults, x.translated);
    probe.Emit(id, u);
    assert probe.ring[0..] == probe.ring;
    if Healthy(x, e) { HealthyMeans(e, x); }
    ShowsWhatEmits(e, x, probe.ring, probe.lost);
    s := Session(id, x.memory, u, x.translated, probe.ring, probe.lost.Total());
  }

  /** One session for each published emission, each from its own scene. */
  ghost predicate ShowsAll(scenes: nat -> Scene, es: seq<F.Emission>, ss: seq<Session>) {
    |ss| == |es| && forall k: nat :: k < |ss| ==> Shows(scenes(k), es[k], ss[k])
  }

  lemma ShowsOneMore(scenes: nat -> Scene, es: seq<F.Emission>, ss: seq<Session>, e: F.Emission, s: Session)
    requires ShowsAll(scenes, es, ss) && Shows(scenes(|ss|), e, s)
    ensures ShowsAll(scenes, es + [e], ss + [s])
  {
    hide Shows;
  }

  lemma AllObserve(scenes: nat -> Scene, log: seq<F.Emission>, ss: seq<Session>)
    requires ShowsAll(scenes, Published(log), ss)
    ensures Observes(log, ss)
  {
    hide SessionOf; hide Published;
    forall k: nat | k < |ss|
      ensures SessionOf(Published(log)[k], ss[k])
    {
      assert Shows(scenes(k), Published(log)[k], ss[k]);
    }
  }

  /**
   A capture as it happens: the tracker observes each firing, and each emission that draws a record id runs `emit` on
   its scene, with whatever faults that holds. However the ring interleaves the records, everything is captured
   exactly; and an observation without faults, of a buffer the program supports, counts no loss and so is released.
   */
  method RecordCapture(ps: seq<F.Firing>, scenes: nat -> Scene) returns (ss: seq<Session>)
    requires F.Run(ps).sequence < TWO64 && forall k: nat :: ValidScene(scenes(k))
    ensures ShowsAll(scenes, Published(F.Run(ps).log), ss)
    ensures forall rs :: SameProjections(rs, Flatten(ss)) ==> Captured(ps, ss, rs)
  {
    hide F.Next; hide Shows; hide ValidScene; hide Captured; hide SameProjections;
    var tracker := new F.Tracker();
    ss := [];
    for i := 0 to |ps|
      invariant tracker.Model() == F.Run(ps[..i])
      invariant ShowsAll(scenes, Published(tracker.log), ss)
    {
      ghost var before := tracker.Model();
      var n := |tracker.log|;
      F.RunOneMore(ps, i);
      F.NextGrows(before, ps[i]);
      tracker.Observe(ps[i]);
      if |tracker.log| > n {
        var e := tracker.log[n];
        PublishedAppend(before.log, e);
        if e.event.Some? {
          var s := ObserveOne(e, scenes(|ss|));
          ShowsOneMore(scenes, Published(before.log), ss, e, s);
          ss := ss + [s];
        }
      }
    }
    assert ps[..|ps|] == ps;
    AllObserve(scenes, F.Run(ps).log, ss);
    forall rs | SameProjections(rs, Flatten(ss))
      ensures Captured(ps, ss, rs)
    {
      CaptureExact(ps, ss, rs);
    }
  }

  /** An observation without faults, of a buffer the program supports, is released, whatever befell the others. */
  lemma HealthyReleased(ps: seq<F.Firing>, scenes: nat -> Scene, ss: seq<Session>, rs: seq<Record>, k: nat)
    requires ShowsAll(scenes, Published(F.Run(ps).log), ss) && Captured(ps, ss, rs)
    requires k < |ss| && Healthy(scenes(k), Published(F.Run(ps).log)[k])
    ensures var s, e := ss[k], Published(F.Run(ps).log)[k];
            && s.urb == Stamped(scenes(k).urb, e) && PayloadLen(s.urb) < TWO32
            && Released(Run(START, rs).value, s.id) == [ExactEvent(scenes(k).memory, s.urb)]
  {
    hide Published; hide F.Run; hide Run; hide RunBounded; hide SessionOf; hide Healthy;
    assert Shows(scenes(k), Published(F.Run(ps).log)[k], ss[k]);
    assert DeliveredAs(Run(START, rs).value, Published(F.Run(ps).log)[k], ss[k]);
  }
}
