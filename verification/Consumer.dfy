/**
 What happens to each captured event: latency pairing, selection, the filter, the output files or the printed
 line, and the limit on how many events to write.
 */
module Consumer {
  import opened Bytes
  import opened Records
  import opened Filter
  import opened Pairing
  import Rotation

  const MAX_UNMATCHED: nat := 65536

  /** `bus` 0 means any; without `output`, events are printed. */
  datatype Options = Options(filter: Expr, bus: u32, device: Option<u8>, limit: Option<u64>,
          output: Option<Rotation.Limits>) {
    predicate Valid() { output.Some? ==> output.value.Valid() }
  }

  type Key = (u64, u64)

  datatype State = State(submissions: map<Key, u64>, written: nat, full: bool, printed: seq<Event>,
          files: Rotation.State)

  const START := State(map[], 0, false, [], Rotation.EMPTY)

  function AsSeen(e: Event): Seen<Key, u64> {
    Seen((e.sourceId, e.meta.urbId), e.meta.eventType == SUBMIT, e.meta.timestamp)
  }

  /** Time since the submission in the table, unless the clock stepped back. */
  function Elapsed(table: map<Key, u64>, e: Event): Option<u64> {
    var key := (e.sourceId, e.meta.urbId);
    if e.meta.eventType == SUBMIT || key !in table || e.meta.timestamp < table[key] then None
    else Some(e.meta.timestamp - table[key])
  }

  predicate Selected(o: Options, e: Event) {
    (o.bus == 0 || o.bus == e.meta.bus) && (o.device.None? || o.device.value == e.meta.device)
  }

  predicate AtLimit(o: Options, written: nat) { o.limit.Some? && written >= o.limit.value }

  /** Output of an accepted event, and whether to stop. */
  function Emit(o: Options, s: State, e: Event): Result<(State, bool)> {
    if o.output.None? then
      Ok((s.(printed := s.printed + [e], written := s.written + 1), AtLimit(o, s.written + 1)))
    else
      var w :- Rotation.Write(o.output.value, s.files, e);
      if w.1 then Ok((s.(files := w.0, written := s.written + 1), AtLimit(o, s.written + 1)))
      else Ok((s.(full := true), true))
  }

  /** Submissions are remembered only when the filter asks for latency. */
  function Tracked(o: Options, s: State, e: Event): State {
    if NeedsLatency(o.filter) then s.(submissions := Track(s.submissions, AsSeen(e))) else s
  }

  function Consume(o: Options, s: State, e: Event): Result<(State, bool)> {
    if s.full || AtLimit(o, s.written) then Ok((s, true))
    else if NeedsLatency(o.filter) && e.meta.eventType == SUBMIT && |s.submissions| >= MAX_UNMATCHED then Err
    else
      var latency := if NeedsLatency(o.filter) then Elapsed(s.submissions, e) else None;
      var t := Tracked(o, s, e);
      if !Selected(o, e) then Ok((t, false)) else
      var verdict :- Evaluate(o.filter, e, latency);
      if verdict != True then Ok((t, false)) else Emit(o, t, e)
  }

  /** Feeds events until one asks to stop; the rest are left unread. */
  function Feed(o: Options, s: State, es: seq<Event>): (r: Result<(State, seq<Event>)>)
    ensures r.Ok? ==> |r.value.1| <= |es|
    decreases es
  {
    if es == [] then Ok((s, [])) else
    var t :- Consume(o, s, es[0]);
    if t.1 then Ok((t.0, es[1..])) else Feed(o, t.0, es[1..])
  }

  // ----- the meaning -----

  function SeenAll(h: seq<Event>): (r: seq<Seen<Key, u64>>)
    ensures |r| == |h| && forall i :: 0 <= i < |h| ==> r[i] == AsSeen(h[i])
  {
    if h == [] then [] else SeenAll(h[..|h| - 1]) + [AsSeen(h[|h| - 1])]
  }

  /** The latency of an event depends on the events before it and on nothing else. */
  function LatencyAfter(h: seq<Event>, e: Event): Option<u64> { Elapsed(Table(SeenAll(h)), e) }

  /** The bus asked for, 0 for any; the device asked for, if any; and a filter that is true, not merely unknown. */
  predicate Accepted(o: Options, h: seq<Event>, e: Event) {
    && (o.bus != 0 ==> e.meta.bus == o.bus) && (o.device.Some? ==> e.meta.device == o.device.value)
    && Evaluate(o.filter, e, LatencyAfter(h, e)) == Ok(True)
  }

  /** The events of `h` that pass, each judged by the events before it. */
  function Matching(o: Options, h: seq<Event>): seq<Event> {
    if h == [] then [] else
    var before, e := h[..|h| - 1], h[|h| - 1];
    Matching(o, before) + (if Accepted(o, before, e) then [e] else [])
  }

  /** Everything written so far. */
  function Written(o: Options, s: State): seq<Event> {
    if o.output.None? then s.printed else Rotation.Contents(s.files)
  }

  function FirstFew(o: Options, es: seq<Event>): seq<Event> {
    if o.limit.Some? && o.limit.value < |es| then es[..o.limit.value] else es
  }

  /** A consumer that has not stopped, after the events `h`. */
  ghost predicate Consumed(o: Options, s: State, h: seq<Event>) {
    && (NeedsLatency(o.filter) ==> s.submissions == Table(SeenAll(h)))
    && !s.full && !AtLimit(o, s.written)
    && Written(o, s) == Matching(o, h) && |Matching(o, h)| == s.written
    && (o.output.Some? ==> Rotation.Greedy(o.output.value, s.files))
  }

  /** The event would need one more file than is allowed. */
  predicate NoRoom(o: Options, s: State, e: Event) {
    && o.output.Some? && o.output.value.maxFiles == Some(|s.files.closed| + 1)
    && Rotation.Exhausted(o.output.value, s.files.current, |s.files.writer.output|, e.meta.timestamp)
  }

  /** The outcome once the events `h` have been read: either everything asked for, or the files are all full. */
  ghost predicate Outcome(o: Options, s: State, h: seq<Event>, stopped: bool) {
    && (if s.full then
          && h != [] && Written(o, s) == Matching(o, h[..|h| - 1]) && Accepted(o, h[..|h| - 1], h[|h| - 1])
          && NoRoom(o, s, h[|h| - 1])
        else Written(o, s) == FirstFew(o, Matching(o, h)))
    && |Written(o, s)| == s.written && (o.limit.Some? ==> s.written <= o.limit.value)
    && (stopped ==> s.full || (o.limit.Some? && s.written == o.limit.value))
    && (o.output.Some? ==> Rotation.Greedy(o.output.value, s.files))
  }

  lemma SeenAppend(h: seq<Event>, e: Event)
    ensures SeenAll(h + [e]) == SeenAll(h) + [AsSeen(e)]
  {
    assert (h + [e])[..|h|] == h;
  }

  lemma MatchingAppend(o: Options, h: seq<Event>, e: Event)
    ensures Matching(o, h + [e]) == Matching(o, h) + (if Accepted(o, h, e) then [e] else [])
  {
    assert (h + [e])[..|h|] == h;
  }

  /** The latency the consumer passes to the filter gives the verdict the history calls for. */
  lemma VerdictIs(o: Options, s: State, h: seq<Event>, e: Event)
    requires NeedsLatency(o.filter) ==> s.submissions == Table(SeenAll(h))
    ensures Evaluate(o.filter, e, if NeedsLatency(o.filter) then Elapsed(s.submissions, e) else None)
            == Evaluate(o.filter, e, LatencyAfter(h, e))
  {
    if !NeedsLatency(o.filter) {
      LatencyIrrelevant(o.filter, e, None, LatencyAfter(h, e));
    }
  }

  lemma EmitWrites(o: Options, s: State, e: Event)
    requires o.Valid() && !s.full && Emit(o, s, e).Ok?
    requires o.output.Some? ==> Rotation.Greedy(o.output.value, s.files)
    ensures var t := Emit(o, s, e).value;
            && Written(o, t.0) == Written(o, s) + (if t.0.full then [] else [e])
            && t.0.written == s.written + (if t.0.full then 0 else 1)
            && (t.1 <==> t.0.full || AtLimit(o, t.0.written)) && t.0.submissions == s.submissions
            && (t.0.full ==> NoRoom(o, t.0, e))
            && (o.output.Some? ==> Rotation.Greedy(o.output.value, t.0.files))
  {
    hide Rotation.Greedy; hide Rotation.Write; hide Rotation.Contents; hide Rotation.Exhausted;
    if o.output.Some? {
      Rotation.WriteKeepsGreedy(o.output.value, s.files, e);
      Rotation.WriteContents(o.output.value, s.files, e);
      Rotation.RefusalKeeps(o.output.value, s.files, e);
      Rotation.WriteRotates(o.output.value, s.files, e);
      Rotation.CountBound(o.output.value, s.files);
    }
  }

  lemma ConsumeCases(o: Options, s: State, h: seq<Event>, e: Event)
    requires NeedsLatency(o.filter) ==> s.submissions == Table(SeenAll(h))
    requires !s.full && !AtLimit(o, s.written) && Consume(o, s, e).Ok?
    ensures Consume(o, s, e) == if Accepted(o, h, e) then Emit(o, Tracked(o, s, e), e)
            else Ok((Tracked(o, s, e), false))
  {
    hide Evaluate; hide Track; hide Emit; hide LatencyAfter;
    VerdictIs(o, s, h, e);
  }

  // ----- what the kernel observes -----

  /** A submission that the kernel takes up: on the bus and device asked for, and passing every installed test. */
  predicate TakenUp(o: Options, m: EventMeta, loopFailed: bool) {
    && (o.bus != 0 ==> m.bus == o.bus) && (o.device.Some? ==> m.device == o.device.value)
    && (loopFailed || forall k | k in KernelPredicates(o.filter) :: KernelMatches(k, m))
  }

  /** The selection at the head of the submission probe; bus 0 and device 0xffffffff mean any. */
  method TakeUp(o: Options, m: EventMeta, loopFailed: bool) returns (taken: bool)
    ensures taken <==> TakenUp(o, m, loopFailed)
  {
    var device: u32 := if o.device.Some? then o.device.value else 0xffff_ffff;
    if !(o.bus == 0 || o.bus == m.bus) || !(device == 0xffff_ffff || device == m.device) { return false; }
    var table := KernelPredicates(o.filter);
    taken := Prefilter(m, table, |table|, loopFailed);
  }

  /** What the consumer would accept, the kernel takes up at submission, whatever the filter and the history. */
  lemma AcceptedIsTakenUp(o: Options, h: seq<Event>, e: Event, submission: EventMeta, loopFailed: bool)
    requires Accepted(o, h, e) && SameStableFields(e.meta, submission)
    ensures TakenUp(o, submission, loopFailed)
  {
    hide Evaluate; hide KernelMatches; hide KernelPredicates; hide LatencyAfter;
    forall k | k in KernelPredicates(o.filter)
      ensures KernelMatches(k, submission)
    {
      KernelPrefilterSound(o.filter, e, LatencyAfter(h, e), submission, k);
    }
  }

  /** A consumer that has not stopped fails only on a submission too many, a failing filter, or a failing output. */
  lemma ConsumeFails(o: Options, s: State, h: seq<Event>, e: Event)
    requires NeedsLatency(o.filter) ==> s.submissions == Table(SeenAll(h))
    requires !s.full && !AtLimit(o, s.written)
    requires Evaluate(o.filter, e, LatencyAfter(h, e)).Ok?
    ensures Consume(o, s, e).Err?
            <==> (NeedsLatency(o.filter) && e.meta.eventType == 83 && |s.submissions| >= 65536)
                 || (Accepted(o, h, e) && Emit(o, Tracked(o, s, e), e).Err?)
  {
    hide Evaluate; hide Track; hide Emit; hide LatencyAfter;
    VerdictIs(o, s, h, e);
  }

  lemma ConsumeStep(o: Options, s: State, h: seq<Event>, e: Event)
    requires o.Valid() && Consumed(o, s, h) && Consume(o, s, e).Ok?
    ensures var t := Consume(o, s, e).value;
            if t.1 then Outcome(o, t.0, h + [e], true) else Consumed(o, t.0, h + [e])
  {
    hide Rotation.Greedy; hide Accepted; hide Track; hide Emit; hide Consume; hide Matching;
    ConsumeCases(o, s, h, e);
    SeenAppend(h, e);
    TableAppend(SeenAll(h), AsSeen(e));
    MatchingAppend(o, h, e);
    assert (h + [e])[..|h|] == h;
    if Accepted(o, h, e) {
      EmitWrites(o, Tracked(o, s, e), e);
    }
  }

  /**
   The events written, in files or on the terminal, are the first of those that pass, in order: as many as asked
   for, or as the files hold.
   */
  lemma {:induction false} WrittenExact(o: Options, s: State, h: seq<Event>, es: seq<Event>)
    requires o.Valid() && Consumed(o, s, h) && Feed(o, s, es).Ok?
    ensures var t := Feed(o, s, es).value;
            Outcome(o, t.0, h + es[..|es| - |t.1|], t.1 != [])
    decreases es
  {
    hide Consume; hide Outcome; hide Consumed;
    if es == [] {
      assert h + [] == h;
      StillRunning(o, s, h);
    } else {
      ConsumeStep(o, s, h, es[0]);
      var t := Consume(o, s, es[0]).value;
      if t.1 {
        assert es[..1] == [es[0]];
        Stopped(o, t.0, h + [es[0]], es[1..] != []);
      } else {
        WrittenExact(o, t.0, h + [es[0]], es[1..]);
        var left := Feed(o, t.0, es[1..]).value.1;
        assert (h + [es[0]]) + es[1..][..|es| - 1 - |left|] == h + es[..|es| - |left|];
      }
    }
  }

  lemma StillRunning(o: Options, s: State, h: seq<Event>)
    requires Consumed(o, s, h)
    ensures Outcome(o, s, h, false)
  {
  }

  lemma Stopped(o: Options, s: State, h: seq<Event>, stopped: bool)
    requires Outcome(o, s, h, true)
    ensures Outcome(o, s, h, stopped)
  {
  }

  /** A whole run, from nothing read to the last event read. */
  lemma WrittenFromStart(o: Options, es: seq<Event>)
    requires o.Valid() && Feed(o, START, es).Ok?
    ensures var t := Feed(o, START, es).value;
            Outcome(o, t.0, es[..|es| - |t.1|], t.1 != [])
  {
    hide Feed; hide Outcome; hide Consumed;
    if o.limit == Some(0) {
      NothingWanted(o, es);
      NoneAskedFor(o, es[..|es| - |Feed(o, START, es).value.1|], Feed(o, START, es).value.1 != []);
    } else {
      StartConsumed(o);
      WrittenExact(o, START, [], es);
      var read := es[..|es| - |Feed(o, START, es).value.1|];
      assert [] + read == read;
    }
  }

  lemma StartConsumed(o: Options)
    requires o.Valid() && o.limit != Some(0)
    ensures Consumed(o, START, [])
  {
    hide Rotation.Greedy; hide Rotation.Contents;
    if o.output.Some? { Rotation.EmptyGreedy(o.output.value); }
    NothingWritten(o);
  }

  lemma NoneAskedFor(o: Options, h: seq<Event>, stopped: bool)
    requires o.Valid() && o.limit == Some(0)
    ensures Outcome(o, START, h, stopped)
  {
    hide Rotation.Greedy; hide Rotation.Contents; hide Matching;
    if o.output.Some? { Rotation.EmptyGreedy(o.output.value); }
    NothingWritten(o);
  }

  lemma NothingWritten(o: Options)
    ensures Written(o, START) == []
  {
    assert Rotation.Concat([[]]) == [];
  }

  lemma NothingWanted(o: Options, es: seq<Event>)
    requires o.limit == Some(0)
    ensures Feed(o, START, es) == Ok((START, if es == [] then [] else es[1..]))
  {
  }

  /** Time from one timestamp to a later one. */
  function Gap(start: u64, end: u64): Option<u64> { if end < start then None else Some(end - start) }

  /** With a latest earlier packet of its URB, an event's latency is the time since that packet, if it submitted. */
  lemma {:induction false} LatencySince(h: seq<Event>, e: Event, j: nat)
    requires IsLatest(SeenAll(h), (e.sourceId, e.meta.urbId), j)
    ensures LatencyAfter(h, e) == if e.meta.eventType == SUBMIT || h[j].meta.eventType != SUBMIT then None
                                  else Gap(h[j].meta.timestamp, e.meta.timestamp)
  {
    hide Table;
    var seen, key := SeenAll(h), (e.sourceId, e.meta.urbId);
    TableIsLatest(seen, key);
    assert seen[j] == AsSeen(h[j]);
    assert forall i: nat :: IsLatest(seen, key, i) ==> i == j;
    assert key in Table(seen) <==> seen[j].submit;
  }

  ghost predicate SeenBefore(h: seq<Event>, key: Key) {
    exists j: nat :: IsLatest(SeenAll(h), key, j)
  }

  lemma {:induction false} NoLatency(h: seq<Event>, e: Event)
    requires !SeenBefore(h, (e.sourceId, e.meta.urbId))
    ensures LatencyAfter(h, e) == None
  {
    hide Table;
    TableIsLatest(SeenAll(h), (e.sourceId, e.meta.urbId));
    assert !LatestIsSubmission(SeenAll(h), (e.sourceId, e.meta.urbId));
  }

  /** Latency pairs by the latest earlier packet of the same source and URB, whatever the filter selects. */
  lemma {:induction false} LatencyPairsByLatest(h: seq<Event>, e: Event, latency: u64)
    ensures LatencyAfter(h, e) == Some(latency) <==>
              e.meta.eventType != SUBMIT
              && exists i: nat :: IsLatest(SeenAll(h), (e.sourceId, e.meta.urbId), i) && h[i].meta.eventType == SUBMIT
                                  && e.meta.timestamp == h[i].meta.timestamp + latency
  {
    hide LatencyAfter; hide SeenAll;
    var key := (e.sourceId, e.meta.urbId);
    if SeenBefore(h, key) {
      var j: nat :| IsLatest(SeenAll(h), key, j);
      LatencySince(h, e, j);
      assert forall i: nat :: IsLatest(SeenAll(h), key, i) ==> i == j;
    } else {
      NoLatency(h, e);
    }
  }

  /** The closure that owns the pairing table, the counters and the output. */
  class Session {
    const options: Options
    const output: Rotation.CaptureOutput?
    var submissions: map<Key, u64>
    var written: nat
    var full: bool
    var printed: seq<Event>

    ghost function Repr(): set<object>
      reads this, output
    {
      if output == null then {this} else {this, output as object, output.writer}
    }

    ghost function Model(): State
      reads Repr()
    {
      State(submissions, written, full, printed, if output == null then Rotation.EMPTY else output.Model())
    }

    ghost predicate Valid()
      reads Repr()
    {
      && options.Valid()
      && (output == null <==> options.output.None?)
      && (output != null ==> output.Valid() && output.limits == options.output.value)
    }

    constructor (options: Options)
      requires options.Valid()
      ensures Valid() && fresh(Repr()) && Model() == START && this.options == options
    {
      this.options := options;
      submissions, written, full, printed := map[], 0, false, [];
      if options.output.Some? {
        output := new Rotation.CaptureOutput(options.output.value);
      } else {
        output := null;
      }
    }

    /** Updates the pairing table; an error when too many submissions are unmatched. */
    method Pair(e: Event) returns (r: Result<Option<u64>>)
      requires Valid() && NeedsLatency(options.filter)
      modifies this`submissions
      ensures r.Err? <==> e.meta.eventType == SUBMIT && |old(submissions)| >= MAX_UNMATCHED
      ensures r.Ok? ==> r.value == Elapsed(old(submissions), e) && submissions == Track(old(submissions), AsSeen(e))
    {
      var key := (e.sourceId, e.meta.urbId);
      if e.meta.eventType == SUBMIT {
        if |submissions| >= MAX_UNMATCHED { return Err; }
        submissions := submissions[key := e.meta.timestamp];
        return Ok(None);
      }
      var latency := None;
      if key in submissions {
        var start := submissions[key];
        if e.meta.timestamp >= start { latency := Some(e.meta.timestamp - start); }
      }
      submissions := submissions - {key};
      return Ok(latency);
    }

    /** One event; the result says whether to stop. */
    method ConsumeEvent(e: Event) returns (r: Result<bool>)
      requires Valid()
      modifies Repr()
      ensures r.Ok? <==> Consume(options, old(Model()), e).Ok?
      ensures r.Ok? ==>
              Valid() && fresh(Repr() - old(Repr()))
              && Consume(options, old(Model()), e) == Ok((Model(), r.value))
    {
      hide Rotation.Greedy; hide Rotation.Write; hide Evaluate; hide Track; hide Elapsed; hide Selected;
      hide NeedsLatency;
      hide AtLimit; hide Emit;
      if !full && !AtLimit(options, written) {
        var latency: Option<u64> := None;
        if NeedsLatency(options.filter) {
          latency :- Pair(e);
        }
        if !Selected(options, e) { return Ok(false); }
        var verdict :- Evaluate(options.filter, e, latency);
        if verdict != True { return Ok(false); }
        r := Output(e);
        return;
      }
      return Ok(full || AtLimit(options, written));
    }

    /** Writes or prints an accepted event. */
    method Output(e: Event) returns (r: Result<bool>)
      requires Valid() && !full
      modifies Repr()
      ensures r.Ok? <==> Emit(options, old(Model()), e).Ok?
      ensures r.Ok? ==>
              Valid() && fresh(Repr() - old(Repr()))
              && Emit(options, old(Model()), e) == Ok((Model(), r.value))
    {
      hide Rotation.Greedy; hide Rotation.Write; hide AtLimit;
      if output != null {
        Rotation.RefusalKeeps(output.limits, output.Model(), e);
        var ok :- output.WriteEvent(e);
        if !ok {
          full := true;
          return Ok(true);
        }
      } else {
        printed := printed + [e];
      }
      written := written + 1;
      return Ok(full || AtLimit(options, written));
    }
  }
}
