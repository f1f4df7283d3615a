/**
 The kernel probes' table of URBs in flight, keyed by URB address, and the identities it hands out.
 URB addresses are reused freely; each probe's map accesses are one atomic step.
 */
module InFlight {
  import opened Bytes
  import opened Records

  const CAPACITY: nat := 65536
  const EINPROGRESS: i32 := -115

  /** `ticket` counts allocations; the 64-bit id published is `Id(ticket)`. */
  datatype Flight = Flight(ticket: nat, status: i32, ready: bool)

  datatype Counters = Counters(submitted: nat, completed: nat, submitErrors: nat, readErrors: nat, stateErrors: nat)

  /** One call of `emit`, the step at which it happened, and the allocation of its record id, if it got that far. */
  datatype Emission = Emission(step: nat, address: u64, ticket: nat, kind: u8, status: i32, event: Option<nat>)

  datatype State = State(steps: nat, inflight: map<u64, Flight>, sequence: nat, counters: Counters, log: seq<Emission>)

  /** What the kernel says of a URB given back. */
  datatype Completion = Completion(unlinked: i32, transferFlags: u32, actual: u32, requested: u32)

  const EREMOTEIO: i32 := -121

  /** The status a driver will see: a short transfer that was asked not to be short is an error. */
  function CompletionStatus(c: Completion): i32 {
    if c.unlinked == 0 && c.transferFlags % 2 == 1 && c.actual < c.requested then EREMOTEIO else c.unlinked
  }

  /** A probe's firing, with what its reads and map operations returned and whether `emit` drew an event id. */
  datatype Firing =
    | Submit(address: u64, readable: bool, selected: bool, insertable: bool, published: bool)
    | SubmitReturn(address: u64, ret: Option<i32>, published: bool)
    | Giveback(address: u64, completion: Option<Completion>)
    | Unanchor(fromGiveback: bool, argument: Option<u64>, published: bool)

  const IDLE := State(0, map[], 0, Counters(0, 0, 0, 0, 0), [])

  function Id(ticket: nat): u64 { ticket % TWO64 }

  // ----- specification -----

  function Emit(s: State, address: u64, ticket: nat, kind: u8, status: i32, published: bool): State {
    s.(log := s.log + [Emission(s.steps, address, ticket, kind, status,
                                if published then Some(s.sequence + 1) else None)],
       sequence := if published then s.sequence + 1 else s.sequence,
       counters := if published then s.counters else s.counters.(readErrors := s.counters.readErrors + 1))
  }

  function OnSubmit(s: State, address: u64, readable: bool, selected: bool, insertable: bool, published: bool): State {
    if !readable then s.(counters := s.counters.(readErrors := s.counters.readErrors + 1))
    else if !selected then s
    else
      var reused := if address in s.inflight then 1 else 0;
      var ticket := s.sequence + 1;
      if !insertable || (address !in s.inflight && |s.inflight| >= CAPACITY) then
        s.(sequence := ticket, counters := s.counters.(stateErrors := s.counters.stateErrors + reused + 1))
      else
        var t := s.(sequence := ticket, inflight := s.inflight[address := Flight(ticket, 0, false)],
                    counters := s.counters.(stateErrors := s.counters.stateErrors + reused,
                                            submitted := s.counters.submitted + 1));
        Emit(t, address, ticket, SUBMIT, EINPROGRESS, published)
  }

  function OnSubmitReturn(s: State, address: u64, ret: Option<i32>, published: bool): State {
    if ret.None? then s.(counters := s.counters.(stateErrors := s.counters.stateErrors + 1))
    else if ret.value >= 0 || address !in s.inflight then s
    else
      var t := s.(inflight := s.inflight - {address},
                  counters := s.counters.(submitErrors := s.counters.submitErrors + 1));
      Emit(t, address, s.inflight[address].ticket, SUBMIT_ERROR, ret.value, published)
  }

  function OnGiveback(s: State, address: u64, completion: Option<Completion>): State {
    if address !in s.inflight then s
    else if completion.None? then s.(counters := s.counters.(readErrors := s.counters.readErrors + 1))
    else
      var f := s.inflight[address].(status := CompletionStatus(completion.value), ready := true);
      s.(inflight := s.inflight[address := f])
  }

  function OnUnanchor(s: State, fromGiveback: bool, argument: Option<u64>, published: bool): State {
    if !fromGiveback then s
    else if argument.None? then s.(counters := s.counters.(stateErrors := s.counters.stateErrors + 1))
    else if argument.value !in s.inflight then s
    else
      var address, f := argument.value, s.inflight[argument.value];
      var t := s.(inflight := s.inflight - {address});
      if !f.ready then t.(counters := s.counters.(stateErrors := s.counters.stateErrors + 1))
      else Emit(t.(counters := s.counters.(completed := s.counters.completed + 1)), address, f.ticket, COMPLETION,
        f.status, published)
  }

  function Next(s: State, p: Firing): State {
    var t := match p
      case Submit(address, readable, selected, insertable, published) =>
        OnSubmit(s, address, readable, selected, insertable, published)
      case SubmitReturn(address, ret, published) => OnSubmitReturn(s, address, ret, published)
      case Giveback(address, completion) => OnGiveback(s, address, completion)
      case Unanchor(fromGiveback, argument, published) => OnUnanchor(s, fromGiveback, argument, published);
    t.(steps := s.steps + 1)
  }

  function Run(ps: seq<Firing>): State {
    if ps == [] then IDLE else Next(Run(ps[..|ps| - 1]), ps[|ps| - 1])
  }

  // ----- the probes as they update the maps -----

  class Tracker {
    var steps: nat
    var inflight: map<u64, Flight>
    var sequence: nat
    var counters: Counters
    var log: seq<Emission>

    ghost function Model(): State
      reads this
    {
      State(steps, inflight, sequence, counters, log)
    }

    constructor ()
      ensures Model() == IDLE
    {
      steps, inflight, sequence, counters, log := 0, map[], 0, Counters(0, 0, 0, 0, 0), [];
    }

    method NextTicket() returns (ticket: nat)
      modifies this`sequence
      ensures ticket == sequence == old(sequence) + 1
    {
      sequence := sequence + 1;
      ticket := sequence;
    }

    method EmitEvent(address: u64, ticket: nat, kind: u8, status: i32, published: bool)
      modifies this`log, this`sequence, this`counters
      ensures Model() == Emit(old(Model()), address, ticket, kind, status, published)
    {
      var event: Option<nat> := None;
      if published {
        var eventTicket := NextTicket();
        event := Some(eventTicket);
      } else {
        counters := counters.(readErrors := counters.readErrors + 1);
      }
      log := log + [Emission(steps, address, ticket, kind, status, event)];
    }

    method ObserveSubmit(address: u64, readable: bool, selected: bool, insertable: bool, published: bool)
      modifies this
      ensures Model() == OnSubmit(old(Model()), address, readable, selected, insertable, published)
    {
      if !readable {
        counters := counters.(readErrors := counters.readErrors + 1);
        return;
      }
      if !selected { return; }
      var ticket := NextTicket();
      if address in inflight { counters := counters.(stateErrors := counters.stateErrors + 1); }
      if !insertable || (address !in inflight && |inflight| >= CAPACITY) {
        counters := counters.(stateErrors := counters.stateErrors + 1);
        return;
      }
      inflight := inflight[address := Flight(ticket, 0, false)];
      counters := counters.(submitted := counters.submitted + 1);
      EmitEvent(address, ticket, SUBMIT, EINPROGRESS, published);
    }

    method ObserveSubmitReturn(address: u64, ret: Option<i32>, published: bool)
      modifies this
      ensures Model() == OnSubmitReturn(old(Model()), address, ret, published)
    {
      if ret.None? {
        counters := counters.(stateErrors := counters.stateErrors + 1);
      } else if ret.value < 0 && address in inflight {
        var state := inflight[address];
        inflight := inflight - {address};
        counters := counters.(submitErrors := counters.submitErrors + 1);
        EmitEvent(address, state.ticket, SUBMIT_ERROR, ret.value, published);
      }
    }

    method ObserveGiveback(address: u64, completion: Option<Completion>)
      modifies this
      ensures Model() == OnGiveback(old(Model()), address, completion)
    {
      if address in inflight {
        if completion.None? {
          counters := counters.(readErrors := counters.readErrors + 1);
        } else {
          var status: i32 := completion.value.unlinked;
          if status == 0 && completion.value.transferFlags % 2 == 1
            && completion.value.actual < completion.value.requested {
            status := EREMOTEIO;
          }
          inflight := inflight[address := inflight[address].(status := status, ready := true)];
        }
      }
    }

    method ObserveUnanchor(fromGiveback: bool, argument: Option<u64>, published: bool)
      modifies this
      ensures Model() == OnUnanchor(old(Model()), fromGiveback, argument, published)
    {
      if !fromGiveback { return; }
      if argument.None? {
        counters := counters.(stateErrors := counters.stateErrors + 1);
        return;
      }
      var address := argument.value;
      if address !in inflight { return; }
      var state := inflight[address];
      inflight := inflight - {address};
      if !state.ready {
        counters := counters.(stateErrors := counters.stateErrors + 1);
        return;
      }
      counters := counters.(completed := counters.completed + 1);
      EmitEvent(address, state.ticket, COMPLETION, state.status, published);
    }

    /** One firing of any of the probes. */
    method Observe(p: Firing)
      modifies this
      ensures Model() == Next(old(Model()), p)
    {
      match p {
        case Submit(address, readable, selected, insertable, published) =>
          ObserveSubmit(address, readable, selected, insertable, published);
        case SubmitReturn(address, ret, published) => ObserveSubmitReturn(address, ret, published);
        case Giveback(address, completion) => ObserveGiveback(address, completion);
        case Unanchor(fromGiveback, argument, published) => ObserveUnanchor(fromGiveback, argument, published);
      }
      steps := steps + 1;
    }
  }

  lemma RunOneMore(ps: seq<Firing>, i: nat)
    requires i < |ps|
    ensures Run(ps[..i + 1]) == Next(Run(ps[..i]), ps[i])
  {
    assert ps[..i + 1][..i] == ps[..i];
  }

  /** A tracker that starts empty and observes every firing is in the state of the run. */
  method ObserveAll(ps: seq<Firing>) returns (t: Tracker)
    ensures fresh(t) && t.Model() == Run(ps)
  {
    hide Next;
    t := new Tracker();
    for i := 0 to |ps|
      invariant t.Model() == Run(ps[..i])
    {
      RunOneMore(ps, i);
      t.Observe(ps[i]);
    }
    assert ps[..|ps|] == ps;
  }

  // ----- identities -----

  predicate Terminal(kind: u8) { kind == COMPLETION || kind == SUBMIT_ERROR }

  /** The probe is a giveback of `address` that a driver will see complete with `status`. */
  predicate RecordsStatus(p: Firing, address: u64, status: i32) {
    p.Giveback? && p.address == address && p.completion.Some? && CompletionStatus(p.completion.value) == status
  }

  /** A giveback of `address` recorded `status` strictly between two steps. */
  ghost predicate RecordedBetween(ps: seq<Firing>, address: u64, status: i32, from: nat, to: nat) {
    exists m :: from < m < to && m < |ps| && RecordsStatus(ps[m], address, status)
  }

  /** The submission that opened `ticket` on `address`, before log position `limit`. */
  ghost predicate OpenedAt(log: seq<Emission>, i: nat, limit: nat, address: u64, ticket: nat) {
    i < limit <= |log| && log[i].kind == SUBMIT && log[i].address == address && log[i].ticket == ticket
  }

  ghost predicate FlightOk(s: State, ps: seq<Firing>, address: u64)
    requires address in s.inflight
  {
    var f := s.inflight[address];
    && f.ticket <= s.sequence
    && (forall j :: 0 <= j < |s.log| && Terminal(s.log[j].kind) ==> s.log[j].ticket != f.ticket)
    && exists i: nat :: OpenedAt(s.log, i, |s.log|, address, f.ticket)
                   && (f.ready ==> RecordedBetween(ps, address, f.status, s.log[i].step, s.steps))
  }

  /** A terminal emission follows its own submission, and a completion its recorded giveback. */
  ghost predicate TerminalOk(log: seq<Emission>, ps: seq<Firing>, j: nat)
    requires j < |log|
  {
    exists i: nat :: OpenedAt(log, i, j, log[j].address, log[j].ticket)
                && (log[j].kind == COMPLETION ==>
                   RecordedBetween(ps, log[j].address, log[j].status, log[i].step, log[j].step))
  }

  ghost predicate LogSafe(s: State, ps: seq<Firing>) {
    && (forall j :: 0 <= j < |s.log| ==> s.log[j].ticket <= s.sequence && s.log[j].step < s.steps)
    && (forall i, j :: 0 <= i < j < |s.log| && s.log[i].kind == SUBMIT && s.log[j].kind == SUBMIT ==>
       s.log[i].ticket < s.log[j].ticket)
    && (forall i, j :: 0 <= i < j < |s.log| && Terminal(s.log[i].kind) && Terminal(s.log[j].kind) ==>
       s.log[i].ticket != s.log[j].ticket)
    && (forall j :: 0 <= j < |s.log| && Terminal(s.log[j].kind) ==> TerminalOk(s.log, ps, j))
  }

  ghost predicate FlightsSafe(s: State, ps: seq<Firing>) {
    && (forall a :: a in s.inflight ==> FlightOk(s, ps, a))
    && (forall a, b :: a in s.inflight && b in s.inflight && a != b ==> s.inflight[a].ticket != s.inflight[b].ticket)
  }

  ghost predicate Safe(s: State, ps: seq<Firing>) {
    s.steps == |ps| && LogSafe(s, ps) && FlightsSafe(s, ps)
  }

  // ----- what any step keeps -----

  lemma RecordedGrows(ps: seq<Firing>, p: Firing, address: u64, status: i32, from: nat, to: nat, later: nat)
    requires RecordedBetween(ps, address, status, from, to) && to <= later
    ensures RecordedBetween(ps + [p], address, status, from, later)
  {
    var m :| from < m < to && m < |ps| && RecordsStatus(ps[m], address, status);
    assert (ps + [p])[m] == ps[m];
  }

  lemma TerminalGrows(log: seq<Emission>, more: seq<Emission>, ps: seq<Firing>, p: Firing, j: nat)
    requires j < |log| && TerminalOk(log, ps, j)
    ensures TerminalOk(log + more, ps + [p], j)
  {
    var i: nat :| OpenedAt(log, i, j, log[j].address, log[j].ticket)
             && (log[j].kind == COMPLETION ==>
                RecordedBetween(ps, log[j].address, log[j].status, log[i].step, log[j].step));
    assert OpenedAt(log + more, i, j, log[j].address, log[j].ticket);
    if log[j].kind == COMPLETION {
      RecordedGrows(ps, p, log[j].address, log[j].status, log[i].step, log[j].step, log[j].step);
    }
  }

  /** A flight that a step does not touch stays explained. */
  lemma FlightGrows(s: State, t: State, ps: seq<Firing>, p: Firing, address: u64)
    requires s.steps == |ps| && t.steps == s.steps + 1 && s.sequence <= t.sequence && s.log <= t.log
    requires address in s.inflight && address in t.inflight && t.inflight[address] == s.inflight[address]
    requires FlightOk(s, ps, address)
    requires forall j :: |s.log| <= j < |t.log| && Terminal(t.log[j].kind) ==>
             t.log[j].ticket != s.inflight[address].ticket
    ensures FlightOk(t, ps + [p], address)
  {
    var f := s.inflight[address];
    var i: nat :| OpenedAt(s.log, i, |s.log|, address, f.ticket)
             && (f.ready ==> RecordedBetween(ps, address, f.status, s.log[i].step, s.steps));
    assert OpenedAt(t.log, i, |t.log|, address, f.ticket);
    if f.ready {
      RecordedGrows(ps, p, address, f.status, s.log[i].step, s.steps, t.steps);
    }
  }

  /** Appending one emission keeps the log safe if the emission itself is. */
  lemma LogGrows(s: State, t: State, ps: seq<Firing>, p: Firing, more: seq<Emission>)
    requires s.steps == |ps| && t.steps == s.steps + 1 && s.sequence <= t.sequence && t.log == s.log + more
             && |more| <= 1
    requires LogSafe(s, ps)
    requires more != [] ==>
               && more[0].step == s.steps && more[0].ticket <= t.sequence
               && (more[0].kind == SUBMIT ==> more[0].ticket > s.sequence)
               && (Terminal(more[0].kind) ==>
                     && TerminalOk(t.log, ps + [p], |s.log|)
                     && forall j :: 0 <= j < |s.log| && Terminal(s.log[j].kind) ==> s.log[j].ticket != more[0].ticket)
    ensures LogSafe(t, ps + [p])
  {
    hide TerminalOk;
    forall j | 0 <= j < |t.log| && Terminal(t.log[j].kind)
      ensures TerminalOk(t.log, ps + [p], j)
    {
      if j < |s.log| { TerminalGrows(s.log, more, ps, p, j); }
    }
  }

  lemma SafeFlight(s: State, ps: seq<Firing>, a: u64, b: u64)
    requires Safe(s, ps) && a in s.inflight
    ensures FlightOk(s, ps, a) && (b in s.inflight && a != b ==> s.inflight[a].ticket != s.inflight[b].ticket)
  {
    hide FlightOk; hide LogSafe;
  }

  /** Flights other than the one a step touches stay safe. */
  lemma OthersGrow(s: State, t: State, ps: seq<Firing>, p: Firing, more: seq<Emission>, touched: u64)
    requires Safe(s, ps) && t.steps == s.steps + 1 && s.sequence <= t.sequence && t.log == s.log + more && |more| <= 1
    requires t.inflight - {touched} == s.inflight - {touched}
    requires more != [] && Terminal(more[0].kind) ==>
             touched in s.inflight && more[0].ticket == s.inflight[touched].ticket
    ensures forall a :: a in t.inflight && a != touched ==>
            a in s.inflight && t.inflight[a] == s.inflight[a] && FlightOk(t, ps + [p], a)
  {
    hide LogSafe; hide FlightOk;
    StepsMatch(s, ps);
    hide Safe;
    forall a | a in t.inflight && a != touched
      ensures a in s.inflight && t.inflight[a] == s.inflight[a] && FlightOk(t, ps + [p], a)
    {
      assert a in t.inflight - {touched};
      assert (t.inflight - {touched})[a] == (s.inflight - {touched})[a];
      SafeFlight(s, ps, a, touched);
      FlightGrows(s, t, ps, p, a);
    }
  }

  /** A step that leaves the table and the log alone. */
  lemma QuietSafe(s: State, t: State, ps: seq<Firing>, p: Firing)
    requires Safe(s, ps) && t.steps == s.steps + 1 && s.sequence <= t.sequence && t.log == s.log
             && t.inflight == s.inflight
    ensures Safe(t, ps + [p])
  {
    assert t.log == s.log + [];
    LogGrows(s, t, ps, p, []);
    forall a | a in t.inflight
      ensures FlightOk(t, ps + [p], a)
    {
      FlightGrows(s, t, ps, p, a);
    }
  }

  /** A step that removes a flight, emitting its terminal event or nothing. */
  lemma CloseSafe(s: State, t: State, ps: seq<Firing>, p: Firing, address: u64, more: seq<Emission>)
    requires Safe(s, ps) && address in s.inflight
    requires t.steps == s.steps + 1 && s.sequence <= t.sequence && t.inflight == s.inflight - {address}
    requires t.log == s.log + more && |more| <= 1
    requires more != [] ==>
               && more[0].step == s.steps && more[0].address == address && more[0].ticket == s.inflight[address].ticket
               && (more[0].kind == SUBMIT_ERROR
                   || (more[0].kind == COMPLETION && s.inflight[address].ready
                      && more[0].status == s.inflight[address].status))
    ensures Safe(t, ps + [p])
  {
    if more != [] { ClosingEmission(s, t, ps, p, address, more[0]); }
    OthersGrow(s, t, ps, p, more, address);
    hide FlightOk;
    LogGrows(s, t, ps, p, more);
  }

  lemma ClosingEmission(s: State, t: State, ps: seq<Firing>, p: Firing, address: u64, e: Emission)
    requires Safe(s, ps) && address in s.inflight && t.log == s.log + [e]
    requires e.step == s.steps && e.address == address && e.ticket == s.inflight[address].ticket
    requires e.kind == SUBMIT_ERROR
             || (e.kind == COMPLETION && s.inflight[address].ready && e.status == s.inflight[address].status)
    ensures TerminalOk(t.log, ps + [p], |s.log|)
    ensures forall j :: 0 <= j < |s.log| && Terminal(s.log[j].kind) ==> s.log[j].ticket != e.ticket
    ensures e.ticket <= s.sequence
  {
    hide LogSafe;
    var f := s.inflight[address];
    assert FlightOk(s, ps, address);
    var i: nat :| OpenedAt(s.log, i, |s.log|, address, f.ticket)
             && (f.ready ==> RecordedBetween(ps, address, f.status, s.log[i].step, s.steps));
    assert OpenedAt(t.log, i, |s.log|, address, f.ticket);
    if e.kind == COMPLETION {
      RecordedGrows(ps, p, address, f.status, s.log[i].step, s.steps, s.steps);
    }
  }

  /** A step that opens a flight under a fresh ticket and emits its submission. */
  lemma OpenSafe(s: State, t: State, ps: seq<Firing>, p: Firing, address: u64, e: Emission)
    requires Safe(s, ps)
    requires t.steps == s.steps + 1 && s.sequence < e.ticket <= t.sequence && t.log == s.log + [e]
    requires e.kind == SUBMIT && e.step == s.steps && e.address == address
    requires t.inflight == s.inflight[address := Flight(e.ticket, 0, false)]
    ensures Safe(t, ps + [p])
  {
    LogGrows(s, t, ps, p, [e]);
    OthersGrow(s, t, ps, p, [e], address);
    OpenedFlight(s, t, ps + [p], address, e);
    forall a | a in t.inflight && a != address
      ensures t.inflight[a].ticket < e.ticket
    {
      assert FlightOk(s, ps, a);
    }
  }

  lemma OpenedFlight(s: State, t: State, ps: seq<Firing>, address: u64, e: Emission)
    requires t.log == s.log + [e] && e.kind == SUBMIT && e.address == address && e.ticket <= t.sequence
    requires address in t.inflight && t.inflight[address] == Flight(e.ticket, 0, false)
    requires forall j :: 0 <= j < |s.log| ==> s.log[j].ticket < e.ticket
    ensures FlightOk(t, ps, address)
  {
    assert OpenedAt(t.log, |s.log|, |t.log|, address, e.ticket);
  }

  /** A step that records a status on a flight. */
  lemma RecordSafe(s: State, t: State, ps: seq<Firing>, p: Firing, address: u64, status: i32)
    requires Safe(s, ps) && address in s.inflight && RecordsStatus(p, address, status)
    requires t.steps == s.steps + 1 && t.sequence == s.sequence && t.log == s.log
    requires t.inflight == s.inflight[address := s.inflight[address].(status := status, ready := true)]
    ensures Safe(t, ps + [p])
  {
    hide LogSafe;
    hide FlightOk;
    assert t.log == s.log + [];
    RecordedFlight(s, t, ps, p, address, status);
    OthersGrow(s, t, ps, p, [], address);
    LogGrows(s, t, ps, p, []);
  }

  lemma RecordedFlight(s: State, t: State, ps: seq<Firing>, p: Firing, address: u64, status: i32)
    requires RecordsStatus(p, address, status)
    requires s.steps == |ps| && t.steps == s.steps + 1 && t.sequence == s.sequence && t.log == s.log && LogSafe(s, ps)
    requires address in s.inflight && address in t.inflight && FlightOk(s, ps, address)
    requires t.inflight[address] == s.inflight[address].(status := status, ready := true)
    ensures FlightOk(t, ps + [p], address)
  {
    var f, qs := s.inflight[address], ps + [p];
    var i: nat :| OpenedAt(s.log, i, |s.log|, address, f.ticket)
             && (f.ready ==> RecordedBetween(ps, address, f.status, s.log[i].step, s.steps));
    assert qs[s.steps] == p;
    assert RecordedBetween(qs, address, status, t.log[i].step, t.steps);
    assert OpenedAt(t.log, i, |t.log|, address, f.ticket);
  }

  lemma SubmitSafe(s: State, ps: seq<Firing>, p: Firing)
    requires Safe(s, ps) && p.Submit?
    ensures Safe(Next(s, p), ps + [p])
  {
    hide Safe;
    var t := Next(s, p);
    if t.log == s.log {
      StepsMatch(s, ps);
      QuietSafe(s, t, ps, p);
    } else {
      StepsMatch(s, ps);
      OpenSafe(s, t, ps, p, p.address, t.log[|s.log|]);
    }
  }

  lemma StepsMatch(s: State, ps: seq<Firing>)
    requires Safe(s, ps)
    ensures s.steps == |ps|
  {
  }

  lemma GivebackSafe(s: State, ps: seq<Firing>, p: Firing)
    requires Safe(s, ps) && p.Giveback?
    ensures Safe(Next(s, p), ps + [p])
  {
    hide Safe;
    var t := Next(s, p);
    if p.address in s.inflight && p.completion.Some? {
      RecordSafe(s, t, ps, p, p.address, CompletionStatus(p.completion.value));
    } else {
      QuietSafe(s, t, ps, p);
    }
  }

  lemma NextSafe(s: State, ps: seq<Firing>, p: Firing)
    requires Safe(s, ps)
    ensures Safe(Next(s, p), ps + [p])
  {
    hide Safe;
    var t := Next(s, p);
    if p.Submit? {
      SubmitSafe(s, ps, p);
    } else if p.Giveback? {
      GivebackSafe(s, ps, p);
    } else if t.inflight == s.inflight && t.log == s.log {
      QuietSafe(s, t, ps, p);
    } else if p.SubmitReturn? {
      CloseSafe(s, t, ps, p, p.address, [t.log[|s.log|]]);
    } else {
      var a := p.argument.value;
      var f := s.inflight[a];
      CloseSafe(s, t, ps, p, a, if f.ready then [t.log[|s.log|]] else []);
    }
  }

  // ----- over whole runs -----

  lemma {:induction false} RunSafe(ps: seq<Firing>)
    ensures Safe(Run(ps), ps)
  {
    if ps != [] {
      var q := ps[..|ps| - 1];
      RunSafe(q);
      NextSafe(Run(q), q, ps[|ps| - 1]);
      assert q + [ps[|ps| - 1]] == ps;
    }
  }

  /**
   Submissions are numbered in order, even when addresses are reused, so two of them share a published id exactly
   when their numbers are a positive multiple of 2^64 apart, and never in a run of fewer allocations than that.
   */
  lemma FreshIds(ps: seq<Firing>, i: nat, j: nat)
    requires i < j < |Run(ps).log| && Run(ps).log[i].kind == SUBMIT && Run(ps).log[j].kind == SUBMIT
    ensures var first, second := Run(ps).log[i].ticket, Run(ps).log[j].ticket;
            && first < second <= Run(ps).sequence
            && (Id(first) == Id(second) <==> (second - first) % TWO64 == 0)
            && (Run(ps).sequence < TWO64 ==> Id(first) != Id(second))
  {
    hide Run; hide FlightOk; hide TerminalOk;
    RunSafe(ps);
    IdsCollide(Run(ps).log[i].ticket, Run(ps).log[j].ticket);
  }

  /** Two allocations share a published id exactly when they are a multiple of 2^64 apart. */
  lemma IdsCollide(m: nat, n: nat)
    ensures Id(m) == Id(n) <==> (n - m) % TWO64 == 0
  {
  }

  /**
   Each submission is followed by at most one terminal event, of either kind; a terminal event always
   follows its own submission on the same address; and a completion carries the status that a giveback
   of that address recorded in between.
   */
  lemma TerminalOnce(ps: seq<Firing>)
    ensures var log := Run(ps).log;
            && (forall i, j :: 0 <= i < j < |log| && Terminal(log[i].kind) && Terminal(log[j].kind) ==>
               log[i].ticket != log[j].ticket)
            && (forall j :: 0 <= j < |log| && Terminal(log[j].kind) ==> TerminalOk(log, ps, j))
  {
    RunSafe(ps);
  }

  ghost predicate EventsFresh(s: State) {
    && (forall j :: 0 <= j < |s.log| && s.log[j].event.Some? ==> s.log[j].event.value <= s.sequence)
    && (forall i, j :: 0 <= i < j < |s.log| && s.log[i].event.Some? && s.log[j].event.Some? ==>
       s.log[i].event.value < s.log[j].event.value)
  }

  lemma {:induction false} RunEventsFresh(ps: seq<Firing>)
    ensures EventsFresh(Run(ps))
  {
    if ps != [] {
      var q, p := ps[..|ps| - 1], ps[|ps| - 1];
      RunEventsFresh(q);
      NextEventsFresh(Run(q), p);
      hide EventsFresh;
      hide Next;
      assert Run(ps) == Next(Run(q), p);
    }
  }

  /**
   Later observations have later allocations; two get the same record id exactly when their allocations are a
   multiple of 2^64 apart, so never in runs of fewer allocations.
   */
  lemma DistinctRecordIds(ps: seq<Firing>, i: nat, j: nat)
    requires i < j < |Run(ps).log| && Run(ps).log[i].event.Some? && Run(ps).log[j].event.Some?
    ensures var first, second := Run(ps).log[i].event.value, Run(ps).log[j].event.value;
            && first < second <= Run(ps).sequence
            && (Id(first) == Id(second) <==> (second - first) % TWO64 == 0)
            && (Run(ps).sequence < TWO64 ==> Id(first) != Id(second))
  {
    RunEventsFresh(ps);
    hide Run;
    IdsCollide(Run(ps).log[i].event.value, Run(ps).log[j].event.value);
  }

  lemma NextEventsFresh(s: State, p: Firing)
    requires EventsFresh(s)
    ensures EventsFresh(Next(s, p))
  {
    var t := Next(s, p);
    NextGrows(s, p);
    hide Next;
    if t.log != s.log {
      var e := t.log[|s.log|];
      assert t.log == s.log + [e];
      assert forall j :: 0 <= j < |s.log| ==> t.log[j] == s.log[j];
    }
  }

  /** A step logs at most one emission, under a number no earlier one has. */
  lemma NextGrows(s: State, p: Firing)
    ensures var t := Next(s, p);
            && s.sequence <= t.sequence
            && (t.log == s.log || (|t.log| == |s.log| + 1 && t.log == s.log + [t.log[|s.log|]]
                                   && (t.log[|s.log|].kind == SUBMIT || Terminal(t.log[|s.log|].kind))
                                   && (t.log[|s.log|].event.Some? ==>
                                      s.sequence < t.log[|s.log|].event.value <= t.sequence)))
  {
  }

  ghost predicate Balanced(s: State) {
    var open := s.counters.submitted - s.counters.completed - s.counters.submitErrors;
    |s.inflight| <= open <= |s.inflight| + s.counters.stateErrors
  }

  lemma SubmitBalanced(s: State, a: u64, readable: bool, selected: bool, insertable: bool, published: bool)
    requires Balanced(s)
    ensures Balanced(OnSubmit(s, a, readable, selected, insertable, published))
  {
    SizeWith(s.inflight, a, Flight(s.sequence + 1, 0, false));
  }

  lemma SubmitReturnBalanced(s: State, a: u64, ret: Option<i32>, published: bool)
    requires Balanced(s)
    ensures Balanced(OnSubmitReturn(s, a, ret, published))
  {
    if a in s.inflight { SizeWithout(s.inflight, a); }
  }

  lemma GivebackBalanced(s: State, a: u64, completion: Option<Completion>)
    requires Balanced(s)
    ensures Balanced(OnGiveback(s, a, completion))
  {
    if a in s.inflight && completion.Some? {
      SizeWith(s.inflight, a, s.inflight[a].(status := CompletionStatus(completion.value), ready := true));
    }
  }

  lemma UnanchorBalanced(s: State, fromGiveback: bool, argument: Option<u64>, published: bool)
    requires Balanced(s)
    ensures Balanced(OnUnanchor(s, fromGiveback, argument, published))
  {
    if argument.Some? && argument.value in s.inflight { SizeWithout(s.inflight, argument.value); }
  }

  lemma NextBalanced(s: State, p: Firing)
    requires Balanced(s)
    ensures Balanced(Next(s, p))
  {
    match p
    case Submit(a, readable, selected, insertable, published) =>
      SubmitBalanced(s, a, readable, selected, insertable, published);
    case SubmitReturn(a, ret, published) => SubmitReturnBalanced(s, a, ret, published);
    case Giveback(a, completion) => GivebackBalanced(s, a, completion);
    case Unanchor(fromGiveback, argument, published) => UnanchorBalanced(s, fromGiveback, argument, published);
  }

  /** The difference reported as in flight bounds the table from above, and is exact without state errors. */
  lemma {:induction false} Conservation(ps: seq<Firing>)
    ensures Balanced(Run(ps))
    ensures Run(ps).counters.stateErrors == 0 ==>
              Run(ps).counters.submitted - (Run(ps).counters.completed + Run(ps).counters.submitErrors)
                == |Run(ps).inflight|
  {
    if ps != [] {
      Conservation(ps[..|ps| - 1]);
      NextBalanced(Run(ps[..|ps| - 1]), ps[|ps| - 1]);
    }
  }
}
