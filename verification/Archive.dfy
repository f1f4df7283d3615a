/**
 The raw event archive: every ring record behind its length, then a summary of the kernel's counters. Replaying
 an archive is the live run again, with the kernel's losses added.
 */
module Archive {
  import opened Bytes
  import opened Records
  import opened Reassembly

  /** "USBSCP", a zero byte and the version. */
  const RAW_MAGIC: seq<u8> := [85, 83, 66, 83, 67, 80, 0, 1]

  /** A record behind its length, cut to 32 bits. */
  function Frame(b: seq<u8>): seq<u8> { Le(|b|, 4) + b }

  function Frames(bs: seq<seq<u8>>): seq<u8> {
    if bs == [] then [] else Frame(bs[0]) + Frames(bs[1..])
  }

  function ReadRecord(input: seq<u8>): (r: Result<Option<(seq<u8>, seq<u8>)>>)
    ensures r.Ok? && r.value.Some? ==> |r.value.value.1| < |input|
  {
    if input == [] then Ok(None)
    else if |input| < 4 then Err else
    var len := U32At(input, 0);
    if len < 24 || len > MAX_RECORD_SIZE || |input| - 4 < len then Err
    else if U32At(input[4..4 + len], 4) != len then Err
    else Ok(Some((input[4..4 + len], input[4 + len..])))
  }

  function ReadAll(input: seq<u8>): Result<seq<seq<u8>>>
    decreases |input|
  {
    var first :- ReadRecord(input);
    if first.None? then Ok([]) else
    var more :- ReadAll(first.value.1);
    Ok([first.value.0] + more)
  }

  /** What the archive can hold: a record as long as its own header says, and no longer than any record may be. */
  predicate Framable(b: seq<u8>) {
    24 <= |b| <= 16408 && U32At(b, 4) == |b|
  }

  predicate AllFramable(bs: seq<seq<u8>>) { forall i :: 0 <= i < |bs| ==> Framable(bs[i]) }

  lemma FrameRead(b: seq<u8>, rest: seq<u8>)
    requires |b| < TWO32
    ensures ReadRecord(Frame(b) + rest) == Ok(Some((b, rest))) <==> Framable(b)
    ensures !Framable(b) ==> ReadRecord(Frame(b) + rest).Err?
  {
    hide U32; hide Le;
    var input := Frame(b) + rest;
    LengthRead(b, rest);
    if |b| >= 24 {
      assert input[4..4 + |b|] == b && input[4 + |b|..] == rest;
    }
  }

  lemma LengthRead(b: seq<u8>, rest: seq<u8>)
    requires |b| < TWO32
    ensures |Frame(b)| == 4 + |b| && U32At(Frame(b) + rest, 0) == |b|
  {
    Pow256Values();
    LeRoundTrip(|b|, 4);
    assert (Frame(b) + rest)[0..4] == Le(|b|, 4);
  }

  /** Reading gives back exactly the records written, whenever each one is framable, and an error otherwise. */
  lemma {:induction false} FramesReadBack(bs: seq<seq<u8>>)
    requires forall i :: 0 <= i < |bs| ==> |bs[i]| < TWO32
    ensures ReadAll(Frames(bs)) == if AllFramable(bs) then Ok(bs) else Err
  {
    hide ReadRecord; hide Frame; hide Framable;
    if bs != [] {
      FrameRead(bs[0], Frames(bs[1..]));
      FramesReadBack(bs[1..]);
      NonEmpty(bs[0], Frames(bs[1..]));
      assert [bs[0]] + bs[1..] == bs;
      assert AllFramable(bs) <==> Framable(bs[0]) && AllFramable(bs[1..]);
    } else {
      assert ReadRecord([]) == Ok(None) by { EmptyRead(); }
    }
  }

  lemma EmptyRead()
    ensures ReadRecord([]) == Ok(None)
  {
  }

  lemma NonEmpty(b: seq<u8>, rest: seq<u8>)
    ensures |Frame(b) + rest| == 4 + |b| + |rest|
  {
  }

  /** Cutting an archive off either is noticed or loses whole records from its end. */
  lemma {:induction false} TruncationNoticed(bs: seq<seq<u8>>, k: nat)
    requires AllFramable(bs) && k <= |Frames(bs)| && ReadAll(Frames(bs)[..k]).Ok?
    ensures exists n: nat :: n <= |bs| && ReadAll(Frames(bs)[..k]) == Ok(bs[..n]) && k == |Frames(bs[..n])|
  {
    hide Frame; hide ReadRecord;
    var cut := Frames(bs)[..k];
    if bs == [] || k == 0 {
      EmptyRead();
      assert cut == [] && bs[..0] == [];
      assert ReadAll(cut) == Ok(bs[..0]);
    } else {
      var b, rest := bs[0], Frames(bs[1..]);
      NonEmpty(b, rest);
      CutRead(b, rest, k);
      assert cut == (Frame(b) + rest)[..k];
      assert rest[..k - 4 - |b|] == Frames(bs[1..])[..k - 4 - |b|];
      TruncationNoticed(bs[1..], k - 4 - |b|);
      var n: nat :| n <= |bs| - 1 && ReadAll(rest[..k - 4 - |b|]) == Ok(bs[1..][..n])
        && k - 4 - |b| == |Frames(bs[1..][..n])|;
      assert bs[..n + 1] == [b] + bs[1..][..n];
      assert bs[..n + 1][1..] == bs[1..][..n];
      NonEmpty(b, Frames(bs[1..][..n]));
      assert ReadAll(cut) == Ok(bs[..n + 1]);
    }
  }

  lemma CutRead(b: seq<u8>, rest: seq<u8>, k: nat)
    requires Framable(b) && 0 < k <= |Frame(b) + rest| && ReadRecord((Frame(b) + rest)[..k]).Ok?
    ensures k >= 4 + |b| && ReadRecord((Frame(b) + rest)[..k]) == Ok(Some((b, rest[..k - 4 - |b|])))
  {
    hide U32; hide Le;
    var whole := Frame(b) + rest;
    var input := whole[..k];
    LengthRead(b, rest);
    assert k >= 4 ==> input[0..4] == whole[0..4];
    if k >= 4 + |b| {
      assert input == Frame(b) + rest[..k - 4 - |b|];
      FrameRead(b, rest[..k - 4 - |b|]);
    }
  }

  // ----- the kernel summary -----

  datatype Summary = Summary(submitted: u64, completed: u64, submitErrors: u64, ringLosses: u64, readErrors: u64,
                             unsupportedBuffers: u64, stateErrors: u64, sgEvents: u64) {
    function Losses(): nat { ringLosses + readErrors + unsupportedBuffers + stateErrors }
  }

  function SummaryFields(s: Summary): Fields {
    B8(s.submitted, B8(s.completed, B8(s.submitErrors, B8(s.ringLosses, B8(s.readErrors, B8(s.unsupportedBuffers,
    B8(s.stateErrors, B8(s.sgEvents, End))))))))
  }

  /** The summary as it is written, length first. */
  function SummaryBytes(s: Summary): seq<u8> {
    Pack(B4(88, B2(ABI_VERSION, B2(RECORD_STATS, B4(88, B8(0, B8(0, SummaryFields(s))))))))
  }

  function SummaryRecord(s: Summary): (r: Record)
    ensures |r.body| == 64
  {
    SummaryRead(s); Record(RECORD_STATS, 0, 0, Pack(SummaryFields(s)))
  }

  lemma SummaryRead(s: Summary)
    ensures var b := Pack(SummaryFields(s));
            && |b| == 64 && U64At(b, 0) == s.submitted && U64At(b, 8) == s.completed && U64At(b, 16) == s.submitErrors
            && U64At(b, 24) == s.ringLosses && U64At(b, 32) == s.readErrors
            && U64At(b, 40) == s.unsupportedBuffers && U64At(b, 48) == s.stateErrors && U64At(b, 56) == s.sgEvents
  {
    var f := SummaryFields(s);
    var b := Pack(f);
    assert b[0..] == b + [];
    Unpack(b, 0, f, []);
    f := f.rest; assert Reads(b, 8, f, []);
    f := f.rest; assert Reads(b, 16, f, []);
    f := f.rest; assert Reads(b, 24, f, []);
    f := f.rest; assert Reads(b, 32, f, []);
    f := f.rest; assert Reads(b, 40, f, []);
    f := f.rest; assert Reads(b, 48, f, []);
    f := f.rest; assert Reads(b, 56, f, []);
    f := f.rest; assert Reads(b, 64, f, []);
  }

  /** The summary is one more framed record. */
  lemma SummaryIsFrame(s: Summary)
    ensures SummaryBytes(s) == Frame(Encode(SummaryRecord(s)))
    ensures Framable(Encode(SummaryRecord(s))) && Parse(Encode(SummaryRecord(s))) == Ok(SummaryRecord(s))
  {
    hide Pack; hide Le; hide U32; hide Parse;
    SummaryRead(s);
    var r := SummaryRecord(s);
    RecordRoundTrip(r, []);
    assert Encode(r) + [] == Encode(r);
    SummaryPacks(s);
  }

  lemma SummaryPacks(s: Summary)
    requires |Pack(SummaryFields(s))| == 64
    ensures SummaryBytes(s) == Le(88, 4) + (Pack(HeaderFields(SummaryRecord(s))) + Pack(SummaryFields(s)))
  {
    hide Le; hide SummaryFields;
    var f := SummaryFields(s);
    var tail := Pack(f);
    var h := HeaderFields(SummaryRecord(s));
    Associate(Le(0, 8), [], tail);
    assert Pack(h.rest.rest.rest.rest) == Le(0, 8) + [];
    assert Pack(h.rest.rest.rest) == Le(0, 8) + Pack(h.rest.rest.rest.rest);
    assert Pack(h.rest.rest) == Le(88, 4) + Pack(h.rest.rest.rest);
    assert Pack(h.rest) == Le(RECORD_STATS, 2) + Pack(h.rest.rest);
    assert Pack(h) == Le(ABI_VERSION, 2) + Pack(h.rest);
    assert Pack(B8(0, f)) == Pack(h.rest.rest.rest.rest) + tail;
    assert Pack(B8(0, B8(0, f))) == Pack(h.rest.rest.rest) + tail;
    assert Pack(B4(88, B8(0, B8(0, f)))) == Pack(h.rest.rest) + tail;
    assert Pack(B2(RECORD_STATS, B4(88, B8(0, B8(0, f))))) == Pack(h.rest) + tail;
    assert Pack(B2(ABI_VERSION, B2(RECORD_STATS, B4(88, B8(0, B8(0, f)))))) == Pack(h) + tail;
  }

  // ----- replay -----

  /** The archive of a live run that ended without error. */
  function ArchiveBytes(bs: seq<seq<u8>>, s: Summary): seq<u8> { RAW_MAGIC + (Frames(bs) + SummaryBytes(s)) }

  function ReadArchive(file: seq<u8>): Result<seq<seq<u8>>> {
    if |file| < 8 || file[..8] != RAW_MAGIC then Err else ReadAll(file[8..])
  }

  /** An archive on disk: the magic, then each record behind its length as four bytes, lowest first. */
  lemma ArchiveOnDisk(bs: seq<seq<u8>>, b: seq<u8>, s: Summary)
    requires |b| <= 16408
    ensures ArchiveBytes(bs, s)[..8] == [85, 83, 66, 83, 67, 80, 0, 1]
    ensures ArchiveBytes(bs, s)[8..] == Frames(bs + [Encode(SummaryRecord(s))])
    ensures Frames(bs + [b]) == Frames(bs) + ([(|b| % 256) as u8, (|b| / 256) as u8, 0, 0] + b)
  {
    hide Frame; hide SummaryBytes; hide Frames;
    SummaryIsFrame(s);
    FramesAppend(bs, Encode(SummaryRecord(s)));
    FramesAppend(bs, b);
    LengthBytes(|b|);
    FrameIs(b);
    assert ArchiveBytes(bs, s)[8..] == Frames(bs) + SummaryBytes(s);
  }

  lemma FrameIs(b: seq<u8>)
    ensures Frame(b) == Le(|b|, 4) + b
  {
  }

  lemma LengthBytes(n: nat)
    requires n <= 16408
    ensures Le(n, 4) == [(n % 256) as u8, (n / 256) as u8, 0, 0]
  {
    assert Le(0, 0) == [];
    assert Le(0, 1) == [0] + Le(0, 0);
    assert Le(0, 2) == [0] + Le(0, 1);
    assert Le(n / 256, 3) == [(n / 256) as u8] + Le(0, 2);
  }

  /** Pushing records one after another. */
  ghost function PushAll(s: State, bs: seq<seq<u8>>): Result<(State, seq<Event>)>
    decreases bs
  {
    if bs == [] then Ok((s, [])) else
    var t :- Push(s, bs[0]);
    var more :- PushAll(t.0, bs[1..]);
    Ok((more.0, (if t.1.Some? then [t.1.value] else []) + more.1))
  }

  lemma {:induction false} PushLast(s: State, bs: seq<seq<u8>>, b: seq<u8>)
    requires PushAll(s, bs).Ok?
    ensures Push(PushAll(s, bs).value.0, b).Ok? && Push(PushAll(s, bs).value.0, b).value.1.None? ==>
              PushAll(s, bs + [b]) == Ok((Push(PushAll(s, bs).value.0, b).value.0, PushAll(s, bs).value.1))
    decreases bs
  {
    hide Push;
    if bs == [] {
      assert [] + [b] == [b] && [b][1..] == [];
      assert bs + [b] == [b] && PushAll(s, bs) == Ok((s, []));
      var none: seq<Event> := [];
      assert none + none == none;
    } else {
      var t := Push(s, bs[0]).value;
      PushLast(t.0, bs[1..], b);
      assert (bs + [b])[1..] == bs[1..] + [b];
    }
  }

  lemma {:induction false} FramesAppend(bs: seq<seq<u8>>, b: seq<u8>)
    ensures Frames(bs + [b]) == Frames(bs) + Frame(b)
  {
    hide Frame;
    if bs == [] {
      assert [] + [b] == [b] && [b][1..] == [];
      assert Frame(b) + [] == Frame(b);
    } else {
      FramesAppend(bs[1..], b);
      assert (bs + [b])[1..] == bs[1..] + [b];
      assert (Frame(bs[0]) + Frames(bs[1..])) + Frame(b) == Frame(bs[0]) + (Frames(bs[1..]) + Frame(b));
    }
  }

  lemma SummaryStep(t: State, s: Summary)
    ensures Push(t, Encode(SummaryRecord(s)))
            == Ok((t.(stats := t.stats.(kernelLosses := Saturate(t.stats.kernelLosses + s.Losses()))), None))
  {
    hide Parse; hide Step; hide U64; hide Pack;
    SummaryIsFrame(s);
    SummaryRead(s);
    StatsStep(t, SummaryRecord(s));
  }

  /** Replaying a finished capture releases the same events and ends in the same state, plus the kernel's losses. */
  lemma ReplayExact(bs: seq<seq<u8>>, summary: Summary, start: State)
    requires AllFramable(bs) && PushAll(start, bs).Ok?
    ensures var records := ReadArchive(ArchiveBytes(bs, summary));
            var live := PushAll(start, bs).value;
            && records == Ok(bs + [Encode(SummaryRecord(summary))])
            && PushAll(start, records.value)
               == Ok((live.0.(stats :=
                        live.0.stats.(kernelLosses := Saturate(live.0.stats.kernelLosses + summary.Losses()))),
                      live.1))
  {
    hide Frame; hide Framable; hide Push; hide SummaryBytes; hide Frames; hide ReadAll;
    var last := Encode(SummaryRecord(summary));
    var all := bs + [last];
    SummaryIsFrame(summary);
    FramesAppend(bs, last);
    var file := ArchiveBytes(bs, summary);
    assert file[..8] == RAW_MAGIC && file[8..] == Frames(all);
    assert AllFramable(all);
    Sizes(all);
    FramesReadBack(all);
    PushLast(start, bs, last);
    SummaryStep(PushAll(start, bs).value.0, summary);
  }

  lemma Sizes(bs: seq<seq<u8>>)
    requires AllFramable(bs)
    ensures forall i :: 0 <= i < |bs| ==> |bs[i]| < TWO32
  {
    forall i | 0 <= i < |bs|
      ensures |bs[i]| < TWO32
    {
      assert Framable(bs[i]);
    }
  }

  // ----- the loss total -----

  /** What is reported lost at the end of a run; events still unfinished count as incomplete. */
  function Reported(s: State): nat {
    Saturate(Saturate(s.stats.incomplete + |s.pending| + s.stats.orphans) + s.stats.kernelLosses)
  }

  /** The live total: the reassembler's losses, with events that never ended, and the kernel's, of every kind. */
  function LiveTotal(s: State, summary: Summary): nat {
    s.stats.incomplete + |s.pending| + s.stats.orphans
    + (summary.ringLosses + summary.readErrors + summary.unsupportedBuffers + summary.stateErrors)
  }

  /** A replay reports the live total, up to saturation; in particular none exactly when the capture lost none. */
  lemma ReplayReportsLosses(bs: seq<seq<u8>>, summary: Summary)
    requires AllFramable(bs)
    ensures var start := State(map[], NO_STATS);
            PushAll(start, bs).Ok? && PushAll(start, bs).value.0.stats.kernelLosses == 0 ==>
              var records := ReadArchive(ArchiveBytes(bs, summary));
              && records.Ok? && PushAll(start, records.value).Ok?
              && var total := LiveTotal(PushAll(start, bs).value.0, summary);
                 Reported(PushAll(start, records.value).value.0)
                 == if total <= 0xffff_ffff_ffff_ffff then total else 0xffff_ffff_ffff_ffff
  {
    hide ReadArchive; hide ArchiveBytes; hide PushAll; hide Framable; hide Encode; hide SummaryRecord;
    if PushAll(State(map[], NO_STATS), bs).Ok? {
      ReplayExact(bs, summary, State(map[], NO_STATS));
    }
  }

  // ----- reading in place -----

  class RawReader {
    var input: seq<u8>

    constructor (input: seq<u8>)
      ensures this.input == input
    {
      this.input := input;
    }

    /** Consumes one record, or reports the end of the archive. */
    method ReadNext() returns (r: Result<Option<seq<u8>>>)
      modifies this
      ensures r.Ok? <==> ReadRecord(old(input)).Ok?
      ensures r.Ok? ==> (r.value.None? <==> ReadRecord(old(input)).value.None?)
      ensures r.Ok? && r.value.Some? ==> ReadRecord(old(input)) == Ok(Some((r.value.value, input)))
    {
      if input == [] { return Ok(None); }
      if |input| < 4 { return Err; }
      var len := U32At(input, 0);
      input := input[4..];
      if len < 24 || len > MAX_RECORD_SIZE { return Err; }
      if |input| < len { return Err; }
      var bytes := input[..len];
      input := input[len..];
      assert bytes == old(input)[4..4 + len] && input == old(input)[4 + len..];
      if U32At(bytes, 4) != len { return Err; }
      return Ok(Some(bytes));
    }
  }
}
