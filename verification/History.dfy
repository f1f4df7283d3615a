/**
 What a run of the probes says of each URB: an address is in flight exactly when its latest accepted submission has
 not been closed since, and then its ticket, readiness and status are those of that submission and of the latest
 giveback after it. From this, which firings put an event in the log, with what, and what every counter counts.
 */
module History {
  import opened Bytes
  import opened Records
  import opened InFlight

  // ----- firings by their effect on one address -----

  /** A submission that is read, selected and finds room in the table. */
  ghost predicate Opens(ps: seq<Firing>, i: nat, a: u64) {
    && i < |ps| && ps[i].Submit? && ps[i].address == a && ps[i].readable && ps[i].selected && ps[i].insertable
    && (a in Run(ps[..i]).inflight || |Run(ps[..i]).inflight| < 65536)
  }

  /** A failed return of the submission, or the unanchoring of the URB by the giveback path. */
  predicate Closes(p: Firing, a: u64) {
    || (p.SubmitReturn? && p.address == a && p.ret.Some? && p.ret.value < 0)
    || (p.Unanchor? && p.fromGiveback && p.argument == Some(a))
  }

  /** A giveback whose fields could be read. */
  predicate Gives(p: Firing, a: u64) { p.Giveback? && p.address == a && p.completion.Some? }

  /** The `i`th firing is the latest accepted submission of `a`, and nothing has closed it. */
  ghost predicate OpenSince(ps: seq<Firing>, a: u64, i: nat) {
    Opens(ps, i, a) && forall j: nat :: i < j < |ps| ==> !Opens(ps, j, a) && !Closes(ps[j], a)
  }

  ghost predicate InFlightNow(ps: seq<Firing>, a: u64) {
    exists i: nat :: OpenSince(ps, a, i)
  }

  /** The `g`th firing is the latest readable giveback of `a` after the `i`th firing. */
  ghost predicate GivenSince(ps: seq<Firing>, a: u64, i: nat, g: nat) {
    i < g < |ps| && Gives(ps[g], a) && forall j: nat :: g < j < |ps| ==> !Gives(ps[j], a)
  }

  ghost predicate GivenBack(ps: seq<Firing>, a: u64, i: nat) {
    exists g: nat :: GivenSince(ps, a, i, g)
  }

  // ----- one firing -----

  /** The table is bounded; a URB already in it is replaced. */
  ghost predicate Room(s: State, a: u64) { a in s.inflight || |s.inflight| < 65536 }

  ghost predicate Submits(s: State, p: Firing, a: u64) {
    p.Submit? && p.address == a && p.readable && p.selected && p.insertable && Room(s, a)
  }

  /** What one firing does to one address. */
  lemma NextAt(s: State, p: Firing, a: u64)
    ensures var t := Next(s, p);
            && (Submits(s, p, a) ==> a in t.inflight && t.inflight[a] == Flight(s.sequence + 1, 0, false))
            && (Closes(p, a) ==> a !in t.inflight)
            && (Gives(p, a) && a in s.inflight ==>
                  a in t.inflight && t.inflight[a]
                                     == Flight(s.inflight[a].ticket, CompletionStatus(p.completion.value), true))
            && (!Submits(s, p, a) && !Closes(p, a) && !(Gives(p, a) && a in s.inflight) ==>
                  (a in t.inflight <==> a in s.inflight) && (a in s.inflight ==> t.inflight[a] == s.inflight[a]))
  {
  }

  // ----- histories grow at their end -----

  lemma Last(ps: seq<Firing>)
    requires ps != []
    ensures var q, p := ps[..|ps| - 1], ps[|ps| - 1];
            && Run(ps) == Next(Run(q), p)
            && forall a :: Opens(ps, |ps| - 1, a) <==> Submits(Run(q), p, a)
  {
    hide Next;
  }

  lemma EarlierOpens(ps: seq<Firing>, j: nat, a: u64)
    requires j < |ps| - 1
    ensures Opens(ps, j, a) <==> Opens(ps[..|ps| - 1], j, a)
  {
    hide Run;
    assert ps[..|ps| - 1][..j] == ps[..j];
  }

  lemma OpenSinceStep(ps: seq<Firing>, a: u64, i: nat)
    requires ps != []
    ensures var q, n := ps[..|ps| - 1], |ps| - 1;
            OpenSince(ps, a, i)
            <==> if Opens(ps, n, a) then i == n else OpenSince(q, a, i) && !Closes(ps[n], a)
  {
    hide Opens; hide Closes;
    var q, n := ps[..|ps| - 1], |ps| - 1;
    forall j: nat | j < n
      ensures Opens(ps, j, a) <==> Opens(q, j, a)
    {
      EarlierOpens(ps, j, a);
    }
    OnlyWithin(ps, a);
    if OpenSince(q, a, i) && !Closes(ps[n], a) && !Opens(ps, n, a) {
      assert i < n;
      forall j: nat | i < j < |ps|
        ensures !Opens(ps, j, a) && !Closes(ps[j], a)
      {
        if j < n { assert q[j] == ps[j]; }
      }
    }
    if OpenSince(ps, a, i) && i < n {
      forall j: nat | i < j < |q|
        ensures !Opens(q, j, a) && !Closes(q[j], a)
      {
        assert q[j] == ps[j];
      }
    }
    if Opens(ps, n, a) && i != n && i < n {
      assert !OpenSince(ps, a, i);
    }
  }

  lemma OnlyWithin(ps: seq<Firing>, a: u64)
    requires ps != []
    ensures forall j: nat :: Opens(ps, j, a) ==> j < |ps|
    ensures var q := ps[..|ps| - 1]; forall j: nat :: Opens(q, j, a) ==> j < |q|
  {
    hide Run;
  }

  lemma GivenSinceStep(ps: seq<Firing>, a: u64, i: nat, g: nat)
    requires ps != [] && i < |ps| - 1
    ensures var q, n := ps[..|ps| - 1], |ps| - 1;
            GivenSince(ps, a, i, g) <==> if Gives(ps[n], a) then g == n else GivenSince(q, a, i, g)
  {
    hide Gives;
    var q, n := ps[..|ps| - 1], |ps| - 1;
    assert forall j: nat :: j < n ==> q[j] == ps[j];
  }

  // ----- the table -----

  /** The status a driver will see: a short transfer that was asked not to be short is an error. */
  function Seen(unlinked: i32, flags: u32, actual: u32, requested: u32): i32 {
    if unlinked == 0 && flags % 2 == 1 && actual < requested then -121 else unlinked
  }

  ghost predicate Explained(ps: seq<Firing>, a: u64, i: nat)
    requires OpenSince(ps, a, i)
  {
    && a in Run(ps).inflight
    && Run(ps).inflight[a].ticket == Run(ps[..i]).sequence + 1
    && (Run(ps).inflight[a].ready <==> GivenBack(ps, a, i))
    && (forall g: nat :: GivenSince(ps, a, i, g) ==>
          var c := ps[g].completion.value;
          Run(ps).inflight[a].status == Seen(c.unlinked, c.transferFlags, c.actual, c.requested))
  }

  /**
   An address is in flight exactly when its latest accepted submission has not been closed since. Its ticket is that
   submission's, it is ready exactly when it has been given back since, and its status is that of the latest giveback.
   */
  lemma {:induction false} TableFromHistory(ps: seq<Firing>, a: u64)
    ensures a in Run(ps).inflight <==> InFlightNow(ps, a)
    ensures forall i: nat :: OpenSince(ps, a, i) ==> Explained(ps, a, i)
    decreases |ps|
  {
    if ps == [] {
      NothingYet(a);
    } else {
      TableFromHistory(ps[..|ps| - 1], a);
      TableStep(ps, a);
    }
  }

  lemma NothingYet(a: u64)
    ensures a !in Run([]).inflight && forall i: nat :: !OpenSince([], a, i)
  {
  }

  lemma TableStep(ps: seq<Firing>, a: u64)
    requires ps != []
    requires var q := ps[..|ps| - 1];
             && (a in Run(q).inflight <==> InFlightNow(q, a))
             && forall i: nat :: OpenSince(q, a, i) ==> Explained(q, a, i)
    ensures a in Run(ps).inflight <==> InFlightNow(ps, a)
    ensures forall i: nat :: OpenSince(ps, a, i) ==> Explained(ps, a, i)
  {
    hide Next; hide Run; hide OpenSince; hide GivenSince; hide Explained;
    var q, n, p := ps[..|ps| - 1], |ps| - 1, ps[|ps| - 1];
    Last(ps);
    NextAt(Run(q), p, a);
    forall i: nat
      ensures OpenSince(ps, a, i) <==> if Opens(ps, n, a) then i == n else OpenSince(q, a, i) && !Closes(p, a)
    {
      OpenSinceStep(ps, a, i);
    }
    if Opens(ps, n, a) { assert OpenSince(ps, a, n); }
    if InFlightNow(q, a) && !Opens(ps, n, a) && !Closes(p, a) {
      var i: nat :| OpenSince(q, a, i);
      assert OpenSince(ps, a, i);
    }
    forall i: nat | OpenSince(ps, a, i)
      ensures Explained(ps, a, i)
    {
      SinceWithin(q, a, i);
      if Opens(ps, n, a) { JustOpened(ps, a); } else { StillOpen(ps, a, i); }
    }
  }

  lemma SinceWithin(ps: seq<Firing>, a: u64, i: nat)
    ensures OpenSince(ps, a, i) ==> i < |ps|
  {
  }

  lemma JustOpened(ps: seq<Firing>, a: u64)
    requires ps != [] && OpenSince(ps, a, |ps| - 1)
    ensures Explained(ps, a, |ps| - 1)
  {
    hide Next; hide Run;
    Last(ps);
    NextAt(Run(ps[..|ps| - 1]), ps[|ps| - 1], a);
  }

  lemma StillOpen(ps: seq<Firing>, a: u64, i: nat)
    requires ps != [] && i < |ps| - 1 && OpenSince(ps, a, i)
    requires OpenSince(ps[..|ps| - 1], a, i) && Explained(ps[..|ps| - 1], a, i)
    ensures Explained(ps, a, i)
  {
    hide Next; hide Run; hide GivenSince;
    var q, n, p := ps[..|ps| - 1], |ps| - 1, ps[|ps| - 1];
    Last(ps);
    NextAt(Run(q), p, a);
    assert q[..i] == ps[..i];
    forall g: nat
      ensures GivenSince(ps, a, i, g) <==> if Gives(p, a) then g == n else GivenSince(q, a, i, g)
      ensures GivenSince(q, a, i, g) ==> g < n && q[g] == ps[g]
    {
      GivenSinceStep(ps, a, i, g);
      GivenWithin(q, a, i, g);
    }
    if Gives(p, a) { assert GivenSince(ps, a, i, n); }
    assert GivenBack(ps, a, i) <==> Gives(p, a) || GivenBack(q, a, i);
  }

  lemma GivenWithin(ps: seq<Firing>, a: u64, i: nat, g: nat)
    ensures GivenSince(ps, a, i, g) ==> g < |ps| && Gives(ps[g], a)
  {
  }

  // ----- what each firing logs -----

  lemma RunNext(ps: seq<Firing>, p: Firing)
    ensures Run(ps + [p]) == Next(Run(ps), p) && Run(ps).steps == |ps|
  {
    hide Next;
    assert (ps + [p])[..|ps|] == ps;
    Steps(ps);
  }

  lemma {:induction false} Steps(ps: seq<Firing>)
    ensures Run(ps).steps == |ps|
  {
    if ps != [] {
      Steps(ps[..|ps| - 1]);
    }
  }

  /** The allocation of a record id, `skipped` allocations after those so far, if the emission got that far. */
  function Drawn(s: State, skipped: nat, published: bool): Option<nat> {
    if published then Some(s.sequence + skipped + 1) else None
  }

  lemma SubmitLogs(s: State, p: Firing)
    requires p.Submit? && p.readable && p.selected && p.insertable && Room(s, p.address)
    ensures var t := Next(s, p);
            && t.log == s.log + [Emission(s.steps, p.address, s.sequence + 1, 83, -115, Drawn(s, 1, p.published))]
            && t.sequence == s.sequence + (if p.published then 2 else 1)
  {
  }

  lemma UnanchorLogs(s: State, a: u64, published: bool)
    requires a in s.inflight && s.inflight[a].ready
    ensures var t := Next(s, Unanchor(true, Some(a), published));
            && t.log == s.log + [Emission(s.steps, a, s.inflight[a].ticket, 67, s.inflight[a].status,
                                          Drawn(s, 0, published))]
            && t.counters.completed == s.counters.completed + 1 && a !in t.inflight
  {
  }

  lemma ReturnLogs(s: State, a: u64, ret: i32, published: bool)
    requires a in s.inflight && ret < 0
    ensures var t := Next(s, SubmitReturn(a, Some(ret), published));
            && t.log == s.log + [Emission(s.steps, a, s.inflight[a].ticket, 69, ret, Drawn(s, 0, published))]
            && t.counters.submitErrors == s.counters.submitErrors + 1 && a !in t.inflight
  {
  }

  /** A readable, selected submission that finds room is logged as in progress, under a number of its own. */
  lemma SubmissionLogged(ps: seq<Firing>, p: Firing)
    requires p.Submit? && p.readable && p.selected && p.insertable && Room(Run(ps), p.address)
    ensures Run(ps + [p]).log
            == Run(ps).log + [Emission(|ps|, p.address, Run(ps).sequence + 1, 83, -115,
                                       Drawn(Run(ps), 1, p.published))]
  {
    hide *;
    RunNext(ps, p);
    SubmitLogs(Run(ps), p);
  }

  /** It is now the latest submission of its URB, and open. */
  lemma OpenedNow(ps: seq<Firing>, p: Firing, a: u64)
    requires p.Submit? && p.address == a && p.readable && p.selected && p.insertable && Room(Run(ps), a)
    ensures OpenSince(ps + [p], a, |ps|)
  {
    hide Run; hide Submits; hide OpenSince;
    var longer := ps + [p];
    assert longer[..|longer| - 1] == ps;
    Last(longer);
    OpenSinceStep(longer, a, |ps|);
  }

  /** The flight behind an open submission. */
  lemma FlightIs(ps: seq<Firing>, a: u64, i: nat)
    requires OpenSince(ps, a, i)
    ensures i < |ps| && a in Run(ps).inflight && Run(ps).inflight[a].ticket == Run(ps[..i]).sequence + 1
    ensures forall g: nat :: GivenSince(ps, a, i, g) ==>
                               var c := ps[g].completion.value;
                               && Run(ps).inflight[a].ready
                               && Run(ps).inflight[a].status
                                  == if c.unlinked == 0 && c.transferFlags % 2 == 1 && c.actual < c.requested
                                     then -121 else c.unlinked
  {
    hide Run; hide OpenSince; hide GivenSince;
    SinceWithin(ps, a, i);
    TableFromHistory(ps, a);
    assert Explained(ps, a, i);
    forall g: nat | GivenSince(ps, a, i, g)
      ensures g < |ps| && Gives(ps[g], a)
    {
      GivenWithin(ps, a, i, g);
    }
  }

  /**
   The giveback path unanchors a URB that has been given back readably since its submission: exactly one completion
   is logged, with the submission's ticket and the status of the latest giveback.
   */
  lemma CompletionLogged(ps: seq<Firing>, a: u64, i: nat, g: nat, published: bool)
    requires OpenSince(ps, a, i) && GivenSince(ps, a, i, g)
    ensures var before, after := Run(ps), Run(ps + [Unanchor(true, Some(a), published)]);
            var c := ps[g].completion.value;
            && after.log
               == before.log + [Emission(|ps|, a, Run(ps[..i]).sequence + 1, 67,
                                         if c.unlinked == 0 && c.transferFlags % 2 == 1 && c.actual < c.requested
                                         then -121 else c.unlinked,
                                         Drawn(before, 0, published))]
            && after.counters.completed == before.counters.completed + 1
            && a !in after.inflight
  {
    hide *;
    RunNext(ps, Unanchor(true, Some(a), published));
    FlightIs(ps, a, i);
    UnanchorLogs(Run(ps), a, published);
  }

  /** A submission that fails after it was logged is logged once more, with the error it returned. */
  lemma FailureLogged(ps: seq<Firing>, a: u64, i: nat, ret: i32, published: bool)
    requires OpenSince(ps, a, i) && ret < 0
    ensures var before, after := Run(ps), Run(ps + [SubmitReturn(a, Some(ret), published)]);
            && after.log
               == before.log + [Emission(|ps|, a, Run(ps[..i]).sequence + 1, 69, ret, Drawn(before, 0, published))]
            && after.counters.submitErrors == before.counters.submitErrors + 1
            && a !in after.inflight
  {
    hide *;
    RunNext(ps, SubmitReturn(a, Some(ret), published));
    FlightIs(ps, a, i);
    ReturnLogs(Run(ps), a, ret, published);
  }

  /** A firing that one of the three lemmas above is about. */
  ghost predicate Logs(ps: seq<Firing>, p: Firing) {
    match p
    case Submit(a, readable, selected, insertable, _) =>
      readable && selected && insertable && (InFlightNow(ps, a) || |Run(ps).inflight| < 65536)
    case SubmitReturn(a, ret, _) => ret.Some? && ret.value < 0 && InFlightNow(ps, a)
    case Giveback(_, _) => false
    case Unanchor(fromGiveback, argument, _) =>
      fromGiveback && argument.Some?
      && exists i: nat :: OpenSince(ps, argument.value, i) && GivenBack(ps, argument.value, i)
  }

  ghost function AddressOf(p: Firing): u64 {
    match p
    case Submit(a, _, _, _, _) => a
    case SubmitReturn(a, _, _) => a
    case Giveback(a, _) => a
    case Unanchor(_, argument, _) => if argument.Some? then argument.value else 0
  }

  /** No other firing logs anything. */
  lemma LoggedIff(ps: seq<Firing>, p: Firing)
    ensures Run(ps + [p]).log != Run(ps).log <==> Logs(ps, p)
  {
    hide OpenSince; hide GivenSince; hide GivenBack;
    var a := AddressOf(p);
    RunNext(ps, p);
    TableFromHistory(ps, a);
    hide Run;
    assert forall i: nat :: OpenSince(ps, a, i) ==> Explained(ps, a, i);
  }

  // ----- what the counters count -----

  function CountOf(log: seq<Emission>, kind: u8): nat {
    if log == [] then 0 else CountOf(log[..|log| - 1], kind) + (if log[|log| - 1].kind == kind then 1 else 0)
  }

  lemma CountMore(log: seq<Emission>, e: Emission, kind: u8)
    ensures CountOf(log + [e], kind) == CountOf(log, kind) + (if e.kind == kind then 1 else 0)
  {
    assert (log + [e])[..|log|] == log;
  }

  /** Every submission, completion and failure that is counted has its event in the log, and conversely. */
  lemma {:induction false} LogMatchesCounters(ps: seq<Firing>)
    ensures var s := Run(ps);
            && CountOf(s.log, 83) == s.counters.submitted
            && CountOf(s.log, 67) == s.counters.completed
            && CountOf(s.log, 69) == s.counters.submitErrors
  {
    if ps != [] {
      LogMatchesCounters(ps[..|ps| - 1]);
      NextCounts(Run(ps[..|ps| - 1]), ps[|ps| - 1]);
      hide Next;
    }
  }

  ghost predicate Counted(s: State) {
    && CountOf(s.log, 83) == s.counters.submitted
    && CountOf(s.log, 67) == s.counters.completed
    && CountOf(s.log, 69) == s.counters.submitErrors
  }

  lemma NextCounts(s: State, p: Firing)
    requires Counted(s)
    ensures Counted(Next(s, p))
  {
    hide CountOf;
    var t := Next(s, p);
    if t.log != s.log {
      assert t.log == s.log + [t.log[|s.log|]];
      CountMore(s.log, t.log[|s.log|], 83);
      CountMore(s.log, t.log[|s.log|], 67);
      CountMore(s.log, t.log[|s.log|], 69);
    }
  }

  function One(b: bool): nat { if b then 1 else 0 }

  /** The emission of this firing gets a record id. */
  predicate Publishes(p: Firing) { (p.Submit? || p.SubmitReturn? || p.Unanchor?) && p.published }

  /** A selected submission takes a number, tracked or not, and so does each emission that is published. */
  lemma NumbersDrawn(ps: seq<Firing>, p: Firing)
    ensures Run(ps + [p]).sequence
            == Run(ps).sequence + One(p.Submit? && p.readable && p.selected) + One(Logs(ps, p) && Publishes(p))
  {
    hide OpenSince; hide GivenSince; hide GivenBack;
    var a := AddressOf(p);
    RunNext(ps, p);
    TableFromHistory(ps, a);
    hide Run;
    assert forall i: nat :: OpenSince(ps, a, i) ==> Explained(ps, a, i);
  }

  /** Reads that failed: of a submission, of a giveback of a URB in flight, or of a URB about to be emitted. */
  lemma ReadErrorsCounted(ps: seq<Firing>, p: Firing)
    ensures Run(ps + [p]).counters.readErrors
            == Run(ps).counters.readErrors + One(p.Submit? && !p.readable)
               + One(p.Giveback? && p.completion.None? && InFlightNow(ps, p.address))
               + One(Logs(ps, p) && !Publishes(p))
  {
    hide OpenSince; hide GivenSince; hide GivenBack;
    var a := AddressOf(p);
    RunNext(ps, p);
    TableFromHistory(ps, a);
    hide Run;
    assert forall i: nat :: OpenSince(ps, a, i) ==> Explained(ps, a, i);
  }

  /**
   States that should not arise: a submission of a URB still in flight, one that finds no room, an unreadable return
   value, and on the giveback path an unreadable URB or one that was never given back.
   */
  lemma StateErrorsCounted(ps: seq<Firing>, p: Firing)
    ensures Run(ps + [p]).counters.stateErrors
            == Run(ps).counters.stateErrors
               + One(p.Submit? && p.readable && p.selected && InFlightNow(ps, p.address))
               + One(p.Submit? && p.readable && p.selected && !Logs(ps, p))
               + One(p.SubmitReturn? && p.ret.None?)
               + One(p.Unanchor? && p.fromGiveback && p.argument.None?)
               + One(p.Unanchor? && p.fromGiveback && p.argument.Some? && InFlightNow(ps, p.argument.value)
                     && !Logs(ps, p))
  {
    hide OpenSince; hide GivenSince; hide GivenBack;
    var a := AddressOf(p);
    RunNext(ps, p);
    TableFromHistory(ps, a);
    hide Run;
    assert forall i: nat :: OpenSince(ps, a, i) ==> Explained(ps, a, i);
  }
}
