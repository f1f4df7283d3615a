/**
 Rotated capture files: events go to the current file until a size or time limit has been reached, then to a new
 one, up to a number of files.
 */
module Rotation {
  import opened Bytes
  import opened Records
  import W = Pcapng

  datatype Limits = Limits(size: Option<u64>, seconds: Option<u64>, maxFiles: Option<u32>) {
    /** What the command line accepts. */
    predicate Valid() {
      && size != Some(0) && seconds != Some(0) && maxFiles != Some(0)
      && (maxFiles.Some? ==> size.Some? || seconds.Some?)
    }
  }

  /** Events of the files already closed and of the current one, and the current file's writer. */
  datatype State = State(closed: seq<seq<Event>>, current: seq<Event>, writer: W.WriterState)

  const EMPTY := State([], [], W.Opened())

  predicate TooLarge(l: Limits, bytes: nat) { l.size.Some? && bytes >= l.size.value }

  /** Whole seconds since the first event; clocks that step back count as none. */
  predicate TooOld(l: Limits, first: u64, now: u64) {
    l.seconds.Some? && Max(0, now - first) / 1_000_000_000 >= l.seconds.value
  }

  predicate Full(l: Limits, current: seq<Event>, bytes: nat, now: u64) {
    current != [] && (TooLarge(l, bytes) || TooOld(l, current[0].meta.timestamp, now))
  }

  /** One event: an error, a refusal (`false`) when no further file may be opened, or the event is written. */
  function Write(l: Limits, s: State, e: Event): Result<(State, bool)> {
    if Full(l, s.current, |s.writer.output|, e.meta.timestamp) then
      if l.maxFiles.Some? && |s.closed| + 1 >= l.maxFiles.value then Ok((s, false))
      else if |s.closed| + 1 >= TWO32 then Err
      else
        var w :- W.WriteEvent(W.Opened(), e);
        Ok((State(s.closed + [s.current], [e], w), true))
    else
      var w :- W.WriteEvent(s.writer, e);
      Ok((State(s.closed, s.current + [e], w), true))
  }

  /** The state when the run ends or an event is refused, and the events from the refused one on. */
  function WriteAll(l: Limits, s: State, es: seq<Event>): Result<(State, seq<Event>)>
    decreases es
  {
    if es == [] then Ok((s, [])) else
    var t :- Write(l, s, es[0]);
    if t.1 then WriteAll(l, t.0, es[1..]) else Ok((s, es))
  }

  // ----- what the files contain -----

  function Concat(files: seq<seq<Event>>): seq<Event> {
    if files == [] then [] else Concat(files[..|files| - 1]) + files[|files| - 1]
  }

  predicate Storable(es: seq<Event>) { W.WriteAll(W.Opened(), es).Ok? }

  function FileBytes(es: seq<Event>): seq<u8>
    requires Storable(es)
  {
    W.WriteAll(W.Opened(), es).value.output
  }

  /** The `j`th event went into this file because the file was under both limits just before. */
  ghost predicate UnderLimits(l: Limits, file: seq<Event>, j: nat)
    requires 0 < j < |file|
  {
    Storable(file[..j]) && !Full(l, file[..j], |FileBytes(file[..j])|, file[j].meta.timestamp)
  }

  /** Every event but the first was written under both limits. */
  ghost predicate WellFilled(l: Limits, file: seq<Event>) {
    Storable(file) && forall j :: 0 < j < |file| ==> UnderLimits(l, file, j)
  }

  /** `file` was closed because it was full when the next file's first event came. */
  ghost predicate ClosedFull(l: Limits, file: seq<Event>, next: seq<Event>) {
    file != [] && next != [] && WellFilled(l, file) && Full(l, file, |FileBytes(file)|, next[0].meta.timestamp)
  }

  /** The only way to cut a stream greedily into files. */
  ghost predicate Greedy(l: Limits, s: State) {
    && WellFilled(l, s.current) && W.WriteAll(W.Opened(), s.current) == Ok(s.writer)
    && (s.closed != [] ==> s.current != [])
    && (forall i :: 0 <= i < |s.closed| ==> ClosedFull(l, s.closed[i], FileAt(s, i + 1)))
    && |s.closed| < (if l.maxFiles.Some? then l.maxFiles.value else TWO32)
  }

  function FileAt(s: State, i: nat): seq<Event>
    requires i <= |s.closed|
  {
    if i < |s.closed| then s.closed[i] else s.current
  }

  lemma ConcatAppend(files: seq<seq<Event>>, file: seq<Event>)
    ensures Concat(files + [file]) == Concat(files) + file
  {
    assert (files + [file])[..|files|] == files;
  }

  lemma EmptyGreedy(l: Limits)
    requires l.Valid()
    ensures Greedy(l, EMPTY)
  {
  }

  lemma RefusalKeeps(l: Limits, s: State, e: Event)
    ensures Write(l, s, e).Ok? && !Write(l, s, e).value.1 ==> Write(l, s, e).value.0 == s
  {
  }

  lemma WriteKeepsGreedy(l: Limits, s: State, e: Event)
    requires l.Valid() && Greedy(l, s) && Write(l, s, e).Ok?
    ensures Greedy(l, Write(l, s, e).value.0)
  {
    hide W.WriteEvent;
    var t := Write(l, s, e).value;
    if t.1 {
      if Full(l, s.current, |s.writer.output|, e.meta.timestamp) {
        WroteFirst(e);
        assert ClosedFull(l, s.current, t.0.current);
        forall i | 0 <= i < |t.0.closed|
          ensures ClosedFull(l, t.0.closed[i], FileAt(t.0, i + 1))
        {
          assert i < |s.closed| ==> ClosedFull(l, s.closed[i], FileAt(s, i + 1));
        }
      } else {
        W.WriteAllAppend(W.Opened(), s.current, e);
        Extended(l, s.current, e);
        forall i | 0 <= i < |t.0.closed|
          ensures ClosedFull(l, t.0.closed[i], FileAt(t.0, i + 1))
        {
          assert ClosedFull(l, s.closed[i], FileAt(s, i + 1));
        }
      }
    }
  }

  lemma WroteFirst(e: Event)
    ensures W.WriteAll(W.Opened(), [e]) == W.WriteEvent(W.Opened(), e)
  {
    hide W.WriteEvent;
    W.WriteAllAppend(W.Opened(), [], e);
    assert [] + [e] == [e];
  }

  lemma Extended(l: Limits, file: seq<Event>, e: Event)
    requires WellFilled(l, file) && Storable(file + [e])
    requires !Full(l, file, |FileBytes(file)|, e.meta.timestamp)
    ensures WellFilled(l, file + [e])
  {
    var longer := file + [e];
    forall j | 0 < j < |longer|
      ensures UnderLimits(l, longer, j)
    {
      assert longer[..j] == file[..j];
      if j < |file| {
        assert UnderLimits(l, file, j);
      } else {
        assert file[..j] == file;
      }
    }
  }

  /** All events in files, in order. */
  function Contents(s: State): seq<Event> { Concat(s.closed + [s.current]) }

  /** Rotation or not, an accepted event is appended to the contents and a refused one changes nothing. */
  lemma WriteContents(l: Limits, s: State, e: Event)
    requires Write(l, s, e).Ok?
    ensures var t := Write(l, s, e).value;
            Contents(t.0) == Contents(s) + (if t.1 then [e] else [])
  {
    hide W.WriteEvent; hide Full; hide Concat;
    var t := Write(l, s, e).value.0;
    ConcatAppend(s.closed, s.current);
    ConcatAppend(t.closed, t.current);
    ConcatAppend(s.closed + [s.current], [e]);
  }

  /** The current file has an event and is as large or as old as allowed: sizes in bytes, ages in whole seconds. */
  predicate Exhausted(l: Limits, current: seq<Event>, bytes: nat, now: u64) {
    && current != []
    && ((l.size.Some? && bytes >= l.size.value)
        || (l.seconds.Some? && now >= current[0].meta.timestamp + l.seconds.value * 1_000_000_000))
  }

  lemma ExhaustedIsFull(l: Limits, current: seq<Event>, bytes: nat, now: u64)
    requires l.Valid()
    ensures Full(l, current, bytes, now) <==> Exhausted(l, current, bytes, now)
  {
    if current != [] && l.seconds.Some? { AgeMeans(current[0].meta.timestamp, now, l.seconds.value); }
  }

  lemma AgeMeans(first: u64, now: u64, seconds: u64)
    requires seconds > 0
    ensures Max(0, now - first) / 1_000_000_000 >= seconds <==> now >= first + seconds * 1_000_000_000
  {
  }

  /** When an event starts a new file, joins the current one, or is refused because no further file is allowed. */
  lemma WriteRotates(l: Limits, s: State, e: Event)
    requires l.Valid() && Write(l, s, e).Ok?
    ensures var t := Write(l, s, e).value;
            var full := Exhausted(l, s.current, |s.writer.output|, e.meta.timestamp);
            && (t.1 <==> !(full && l.maxFiles.Some? && |s.closed| + 1 >= l.maxFiles.value))
            && (t.1 && full ==> t.0.closed == s.closed + [s.current] && t.0.current == [e])
            && (t.1 && !full ==> t.0.closed == s.closed && t.0.current == s.current + [e])
  {
    hide W.WriteEvent; hide Full; hide Exhausted;
    ExhaustedIsFull(l, s.current, |s.writer.output|, e.meta.timestamp);
  }

  /** Greediness, file count, contents and order after any run; a refusal means the last permitted file is full. */
  lemma {:induction false} RotationPartitions(l: Limits, s: State, es: seq<Event>)
    requires l.Valid() && Greedy(l, s) && WriteAll(l, s, es).Ok?
    ensures var t := WriteAll(l, s, es).value;
            && Greedy(l, t.0)
            && Contents(t.0) + t.1 == Contents(s) + es
            && (t.1 != [] ==> Full(l, t.0.current, |t.0.writer.output|, t.1[0].meta.timestamp)
                              && l.maxFiles == Some(|t.0.closed| + 1))
    decreases es
  {
    hide Greedy; hide W.WriteEvent; hide Contents;
    if es != [] {
      WriteKeepsGreedy(l, s, es[0]);
      CountBound(l, s);
      WriteContents(l, s, es[0]);
      var t := Write(l, s, es[0]).value;
      if t.1 {
        RotationPartitions(l, t.0, es[1..]);
        assert [es[0]] + es[1..] == es;
        assert (Contents(s) + [es[0]]) + es[1..] == Contents(s) + es;
      }
    }
  }

  lemma CountBound(l: Limits, s: State)
    requires Greedy(l, s)
    ensures |s.closed| < (if l.maxFiles.Some? then l.maxFiles.value else TWO32)
  {
  }

  class CaptureOutput {
    const limits: Limits
    /** Bytes of the files already flushed and closed. */
    var files: seq<seq<u8>>
    var writer: W.Writer
    var fileIndex: u32
    var events: nat
    var started: Option<u64>
    ghost var closed: seq<seq<Event>>
    ghost var current: seq<Event>

    ghost function Model(): State
      reads this, writer
    {
      State(closed, current, writer.Model())
    }

    ghost predicate Valid()
      reads this, writer
    {
      && limits.Valid() && writer.Valid() && Greedy(limits, Model())
      && fileIndex == |files| == |closed| && events == |current|
      && started == (if current == [] then None else Some(current[0].meta.timestamp))
      && (forall i :: 0 <= i < |files| ==> Storable(closed[i]) && files[i] == FileBytes(closed[i]))
    }

    constructor (limits: Limits)
      requires limits.Valid()
      ensures Valid() && fresh(writer) && Model() == EMPTY && this.limits == limits
    {
      this.limits := limits;
      files, fileIndex, events, started, closed, current := [], 0, 0, None, [], [];
      writer := new W.Writer();
      new;
      EmptyGreedy(limits);
    }

    /** Closes the current file and opens the next. */
    method Rotate()
      requires Valid() && fileIndex + 1 < TWO32
      modifies this
      ensures files == old(files) + [old(writer).output] && closed == old(closed) + [old(current)] && current == []
      ensures forall i :: 0 <= i < |files| ==> Storable(closed[i]) && files[i] == FileBytes(closed[i])
      ensures fileIndex == |files| == |closed| && events == 0 && started == None
      ensures fresh(writer) && writer.Valid() && writer.Model() == W.Opened()
    {
      hide W.WriteEvent; hide WellFilled; hide ClosedFull;
      CurrentFile(limits, Model());
      files := files + [writer.output];
      closed, current := closed + [current], [];
      fileIndex := fileIndex + 1;
      writer := new W.Writer();
      events, started := 0, None;
    }

    /** Rotates when a limit is reached, unless no more files are allowed, and writes the event. `false` refuses it. */
    method WriteEvent(e: Event) returns (r: Result<bool>)
      requires Valid()
      modifies this, writer
      ensures r.Ok? <==> Write(limits, old(Model()), e).Ok?
      ensures r.Ok? ==> Valid() && Write(limits, old(Model()), e) == Ok((Model(), r.value))
      ensures writer == old(writer) || fresh(writer)
    {
      hide Greedy; hide W.WriteEvent; hide FileBytes; hide W.Opened; hide W.WriteAll;
      var now := e.meta.timestamp;
      ghost var before := Model();
      var rotate := events != 0 && (TooLarge(limits, writer.bytes)
        || (started.Some? && TooOld(limits, started.value, now)));
      assert rotate <==> Full(limits, current, |writer.output|, now);
      if rotate {
        if limits.maxFiles.Some? && fileIndex + 1 >= limits.maxFiles.value { return Ok(false); }
        if fileIndex + 1 >= TWO32 { return Err; }
        Rotate();
      }
      var ok := Append(e);
      if !ok { return Err; }
      if rotate { assert current == [e]; }
      WriteKeepsGreedy(limits, before, e);
      return Ok(true);
    }

    /** Adds an event to the current file. */
    method Append(e: Event) returns (ok: bool)
      requires writer.Valid() && events == |current|
      requires started == (if current == [] then None else Some(current[0].meta.timestamp))
      modifies this`started, this`current, this`events, writer
      ensures ok <==> W.WriteEvent(old(writer.Model()), e).Ok?
      ensures ok ==> writer.Valid() && writer.Model() == W.WriteEvent(old(writer.Model()), e).value
      ensures ok ==> current == old(current) + [e] && events == |current| && started == Some(current[0].meta.timestamp)
    {
      hide W.WriteEvent;
      if started.None? { started := Some(e.meta.timestamp); }
      ok := writer.Write(e);
      if ok {
        current := current + [e];
        events := events + 1;
      }
    }
  }

  lemma CurrentFile(l: Limits, s: State)
    requires Greedy(l, s)
    ensures Storable(s.current) && FileBytes(s.current) == s.writer.output
  {
  }
}
