/**
 The bytes between ISO frames. They are zero in every event released with given descriptors exactly when the frames
 either do not overlap or leave no gap: the completeness test only counts bytes.
 */
module Gaps {
  import opened Bytes
  import opened Records
  import opened Reassembly
  import opened Transport
  import opened Streams
  import opened Rel = Release
  import opened Emission
  import opened Delivery
  import opened EndToEnd

  /** The descriptors a data-carrying ISO event with this metadata may be released with. */
  ghost predicate Describes(m: EventMeta, iso: seq<IsoDescriptor>) {
    && MetaOk(m) && IsoTransfer(m) && DataPhase(m) && m.isoCount == |iso|
    && m.payloadLen == Span(iso) && m.payloadLen != 0 && m.hasData != 0
    && FramesInside(iso, m.requestedLen)
  }

  ghost predicate Gapless(iso: seq<IsoDescriptor>) {
    forall x: nat :: x < Span(iso) ==> x in InFrames(iso)
  }

  /** No overlap, counted by bytes, or no gap. */
  ghost predicate Tight(iso: seq<IsoDescriptor>) { SumLengths(iso) == |InFrames(iso)| || Gapless(iso) }

  ghost predicate Releases(rs: seq<Record>, r: Record, e: Event) {
    && Run(START, rs).Ok? && Unbounded(Run(START, rs).value.state, r).Ok?
    && Unbounded(Run(START, rs).value.state, r).value.1 == Some(e)
  }

  ghost predicate GapsZero(e: Event) {
    forall x :: 0 <= x < |e.payload| && x !in InFrames(e.iso) ==> e.payload[x] == 0
  }

  // ----- tight descriptors -----

  lemma TightReleases(rs: seq<Record>, r: Record, e: Event)
    requires Releases(rs, r, e) && Describes(e.meta, e.iso) && Tight(e.iso)
    ensures GapsZero(e)
  {
    hide Run; hide Unbounded; hide Explains; hide Own; hide IsSuffix; hide WellShaped; hide FaithfulTo;
    ReleasedMeansComplete(rs, r, e);
    assert |e.payload| == e.meta.payloadLen by { PayloadSize(e); }
    if !Gapless(e.iso) {
      var a := ReleasedAssembly(rs, r, e);
      TightContent(a);
    }
  }

  lemma PayloadSize(e: Event)
    requires WellShaped(e)
    ensures |e.payload| == e.meta.payloadLen
  {
  }

  /** The assembly behind a release, whose distinct bytes are at most its copied count. */
  lemma ReleasedAssembly(rs: seq<Record>, r: Record, e: Event) returns (a: Assembly)
    requires Releases(rs, r, e)
    ensures e == Release(a) && DataComplete(a) && |a.content| <= a.copied
  {
    hide Run; hide Own; hide IsSuffix; hide Release; hide DataComplete;
    var c := Run(START, rs).value;
    RunExplained(rs, r.id);
    a := ReleasedFrom(c.state, r, e);
    var h :| IsSuffix(h, Own(rs, r.id)) && Explains(h, r.id, a);
    ContentSize(Assembly(a.meta, [], map[], 0), h[1..]);
  }

  lemma TightContent(a: Assembly)
    requires IsoTransfer(a.meta) && a.meta.hasData != 0 && DataComplete(a) && |a.content| <= a.copied
    requires SumLengths(a.iso) == |InFrames(a.iso)|
    ensures a.content.Keys == InFrames(a.iso) && GapsZero(Release(a))
  {
    forall x | x in InFrames(a.iso)
      ensures x in a.content
    {
      InFramesMeans(a.iso, x);
      var d :| d in a.iso && d.offset <= x < d.offset + d.length;
      assert Written(a.content, d.offset, d.length);
    }
    SubsetSize(InFrames(a.iso), a.content.Keys);
  }

  // ----- a stream for descriptors that are not tight -----

  function ByteRecord(offset: u64, v: u8): Record { Record(RECORD_DATA, 0, offset, [v]) }

  function IsoRecords(iso: seq<IsoDescriptor>, n: nat): seq<Record>
    requires n <= |iso| < TWO32
  {
    if n == 0 then [] else IsoRecords(iso, n - 1) + [IsoRecord(0, n - 1, iso[n - 1])]
  }

  /** One zero byte for every frame offset below `n`. */
  function ZeroRecords(frames: set<nat>, n: nat): seq<Record>
    requires n < TWO64
  {
    if n == 0 then [] else ZeroRecords(frames, n - 1) + (if n - 1 in frames then [ByteRecord(n - 1, 0)] else [])
  }

  /** The same byte, over and over. */
  function GapRecords(x: u64, k: nat): seq<Record> {
    if k == 0 then [] else GapRecords(x, k - 1) + [ByteRecord(x, 1)]
  }

  function Below(frames: set<nat>, n: nat): set<nat> { set x | x in frames && x < n }
  function ZerosAt(keys: set<nat>): map<nat, u8> { map x | x in keys :: 0 }

  lemma AppendOne(a: Assembly, rs: seq<Record>, r: Record)
    requires AllBody(rs, 0) && IsBody(r) && r.id == 0 && Assemble(a, rs).Ok?
    ensures AllBody(rs + [r], 0) && Assemble(a, rs + [r]) == Extend(Assemble(a, rs).value, r)
  {
    hide Extend;
    AssembleAppend(a, rs, [r]);
    assert [r][1..] == [];
  }

  lemma {:induction false} IsoRecordsAssemble(m: EventMeta, iso: seq<IsoDescriptor>, n: nat)
    requires n <= |iso| == m.isoCount
    ensures AllBody(IsoRecords(iso, n), 0)
    ensures Assemble(Assembly(m, [], map[], 0), IsoRecords(iso, n)) == Ok(Assembly(m, iso[..n], map[], 0))
  {
    if n > 0 {
      IsoRecordsAssemble(m, iso, n - 1);
      IsoRoundTrip(iso[n - 1]);
      hide EncodeIso; hide DecodeIso; hide Assemble;
      AppendOne(Assembly(m, [], map[], 0), IsoRecords(iso, n - 1), IsoRecord(0, n - 1, iso[n - 1]));
      assert iso[..n - 1] + [iso[n - 1]] == iso[..n];
    }
  }

  /** A byte is stored when it lies in the span and no other value is there. */
  lemma ByteStored(a: Assembly, offset: u64, v: u8)
    requires IsoTransfer(a.meta) && offset < a.meta.payloadLen && (offset in a.content ==> a.content[offset] == v)
    ensures Extend(a, ByteRecord(offset, v)) == Ok(a.(content := a.content[offset := v], copied := a.copied + 1))
  {
    assert Fragment(offset, [v]) == map[offset := v];
    assert a.content + map[offset := v] == a.content[offset := v];
  }

  lemma NothingToAdd(a: Assembly)
    ensures AllBody([], 0) && Assemble(a, []) == Ok(a)
  {
  }

  lemma ByteIsBody(offset: u64, v: u8)
    ensures IsBody(ByteRecord(offset, v)) && ByteRecord(offset, v).id == 0
  {
  }

  lemma ZerosAdd(keys: set<nat>, k: nat)
    ensures ZerosAt(keys)[k := 0] == ZerosAt(keys + {k})
  {
  }

  lemma {:induction false} ZeroRecordsAssemble(a: Assembly, frames: set<nat>, n: nat)
    requires IsoTransfer(a.meta) && a.content == map[] && a.copied == 0 && n <= a.meta.payloadLen
    ensures AllBody(ZeroRecords(frames, n), 0)
    ensures Assemble(a, ZeroRecords(frames, n))
            == Ok(a.(content := ZerosAt(Below(frames, n)), copied := |Below(frames, n)|))
  {
    hide Extend; hide Assemble; hide AllBody;
    if n == 0 {
      NothingToAdd(a);
      assert Below(frames, 0) == {} && ZerosAt({}) == map[];
    } else {
      ZeroRecordsAssemble(a, frames, n - 1);
      BelowStep(frames, n);
      if n - 1 in frames {
        var b := a.(content := ZerosAt(Below(frames, n - 1)), copied := |Below(frames, n - 1)|);
        hide ByteRecord;
        ByteIsBody(n - 1, 0);
        AppendOne(a, ZeroRecords(frames, n - 1), ByteRecord(n - 1, 0));
        ByteStored(b, n - 1, 0);
        ZerosAdd(Below(frames, n - 1), n - 1);
      } else {
        assert ZeroRecords(frames, n - 1) + [] == ZeroRecords(frames, n - 1);
      }
    }
  }

  lemma BelowStep(frames: set<nat>, n: nat)
    requires n > 0
    ensures Below(frames, n) == Below(frames, n - 1) + (if n - 1 in frames then {n - 1} else {})
    ensures |Below(frames, n)| == |Below(frames, n - 1)| + (if n - 1 in frames then 1 else 0)
  {
    assert Below(frames, n) == Below(frames, n - 1) + (if n - 1 in frames then {n - 1} else {});
  }

  lemma {:induction false} GapRecordsAssemble(a: Assembly, x: u64, k: nat)
    requires IsoTransfer(a.meta) && x < a.meta.payloadLen && x !in a.content
    ensures AllBody(GapRecords(x, k), 0)
    ensures Assemble(a, GapRecords(x, k))
            == Ok(a.(content := if k == 0 then a.content else a.content[x := 1], copied := a.copied + k))
  {
    hide Extend; hide Assemble; hide AllBody;
    if k == 0 {
      NothingToAdd(a);
    } else {
      GapRecordsAssemble(a, x, k - 1);
      var b := a.(content := if k == 1 then a.content else a.content[x := 1], copied := a.copied + (k - 1));
      hide ByteRecord;
      ByteIsBody(x, 1);
      AppendOne(a, GapRecords(x, k - 1), ByteRecord(x, 1));
      ByteStored(b, x, 1);
      assert b.content[x := 1] == a.content[x := 1];
    }
  }

  lemma FramesBelowSpan(iso: seq<IsoDescriptor>)
    ensures forall x :: x in InFrames(iso) ==> x < Span(iso)
    ensures Below(InFrames(iso), Span(iso)) == InFrames(iso)
  {
    hide Span;
    SpanMeans(iso);
    forall x | x in InFrames(iso)
      ensures x < Span(iso)
    {
      InFramesMeans(iso, x);
    }
  }

  lemma {:induction false} InFramesAtMost(iso: seq<IsoDescriptor>)
    ensures |InFrames(iso)| <= SumLengths(iso)
  {
    if iso != [] {
      InFramesAtMost(iso[1..]);
      var first, rest := Interval(iso[0].offset, iso[0].length), InFrames(iso[1..]);
      IntervalSize(iso[0].offset, iso[0].length);
      assert |first + rest| + |first * rest| == |first| + |rest|;
    }
  }

  /**
   * The records between BEGIN and END: descriptors, every frame byte once, and the gap byte as often as frames
   * overlap.
   */
  function GapBody(iso: seq<IsoDescriptor>, x: u64, k: nat): seq<Record>
    requires |iso| < TWO32 && Span(iso) < TWO64
  {
    IsoRecords(iso, |iso|) + (ZeroRecords(InFrames(iso), Span(iso)) + GapRecords(x, k))
  }

  ghost function GapAssembly(m: EventMeta, iso: seq<IsoDescriptor>, x: u64): Assembly {
    Assembly(m, iso, ZerosAt(InFrames(iso))[x := 1], SumLengths(iso))
  }

  lemma GapBodyAssembles(m: EventMeta, iso: seq<IsoDescriptor>, x: u64, k: nat)
    requires Describes(m, iso) && x < Span(iso) && x !in InFrames(iso)
    requires k > 0 && |InFrames(iso)| + k == SumLengths(iso)
    ensures AllBody(GapBody(iso, x, k), 0)
    ensures Assemble(Assembly(m, [], map[], 0), GapBody(iso, x, k)) == Ok(GapAssembly(m, iso, x))
  {
    hide Assemble; hide IsoRecords; hide ZeroRecords; hide GapRecords; hide SumLengths; hide InFrames; hide Below;
    hide Span;
    var start := Assembly(m, [], map[], 0);
    var listed := Assembly(m, iso, map[], 0);
    var zeros := listed.(content := ZerosAt(InFrames(iso)), copied := |InFrames(iso)|);
    var p, q, r := IsoRecords(iso, |iso|), ZeroRecords(InFrames(iso), Span(iso)), GapRecords(x, k);
    FramesBelowSpan(iso);
    IsoRecordsAssemble(m, iso, |iso|);
    assert iso[..|iso|] == iso;
    ZeroRecordsAssemble(listed, InFrames(iso), Span(iso));
    GapRecordsAssemble(zeros, x, k);
    assert AllBody(q + r, 0) && AllBody(p + (q + r), 0);
    AssembleAppend(listed, q, r);
    AssembleAppend(start, p, q + r);
  }

  lemma GapAssemblyFinished(m: EventMeta, iso: seq<IsoDescriptor>, x: u64)
    requires Describes(m, iso) && x < Span(iso) && x !in InFrames(iso) && SumLengths(iso) < TWO64
    ensures Finished(GapAssembly(m, iso, x), SumLengths(iso), |iso|, COMPLETE)
    ensures !GapsZero(Release(GapAssembly(m, iso, x)))
  {
    hide Span; hide SumLengths; hide InFrames;
    var a := GapAssembly(m, iso, x);
    forall d | d in iso
      ensures Written(a.content, d.offset, d.length)
    {
      forall y: nat | d.offset <= y < d.offset + d.length
        ensures y in a.content
      {
        InFramesMeans(iso, y);
      }
    }
    var e := Release(a);
    assert x in a.content && e.payload[x] == 1;
  }

  /** A stream that releases the descriptors with a gap byte of 1. */
  lemma GapStream(m: EventMeta, iso: seq<IsoDescriptor>, x: u64) returns (rs: seq<Record>, r: Record, e: Event)
    requires Describes(m, iso) && x < Span(iso) && x !in InFrames(iso) && SumLengths(iso) > |InFrames(iso)|
    ensures Releases(rs, r, e) && e.meta == m && e.iso == iso && !GapsZero(e)
  {
    hide Assemble; hide SumLengths; hide InFrames; hide GapBody; hide Span; hide Finished; hide GapsZero; hide Run;
    hide ZerosAt;
    hide EncodeMeta; hide DecodeMeta; hide Fill;
    var k: nat := SumLengths(iso) - |InFrames(iso)|;
    GapBodyAssembles(m, iso, x, k);
    SumLengthsBound(iso);
    Product(|iso|);
    var a, copied := GapAssembly(m, iso, x), SumLengths(iso);
    GapAssemblyFinished(m, iso, x);
    MetaRoundTrip(m);
    var begin, opening := BeginRecord(0, m), Assembly(m, [], map[], 0);
    OpensWith(m);
    RunFromBegin(START, 0, begin, opening, GapBody(iso, x, k));
    rs := [begin] + GapBody(iso, x, k);
    r := EndRecord(0, copied, |iso|, COMPLETE);
    e := Release(a);
    EndRoundTrip(copied, |iso|, COMPLETE);
    var s := Run(START, rs).value.state;
    assert 0 in s.pending && s.pending[0] == a;
    EndStep(s, r);
  }

  lemma Product(n: nat)
    requires n < TWO32
    ensures n * (TWO32 - 1) < TWO64
  {
    assert n * (TWO32 - 1) <= (TWO32 - 1) * (TWO32 - 1);
  }

  lemma OpensWith(m: EventMeta)
    requires MetaOk(m)
    ensures Take(START, BeginRecord(0, m)) == Ok(With(START, 0, Assembly(m, [], map[], 0)))
  {
    hide EncodeMeta; hide DecodeMeta;
    MetaRoundTrip(m);
    BeginStep(START.state, BeginRecord(0, m));
  }

  /**
   In every event released with these descriptors, whatever the stream, the bytes outside the frames are zero exactly
   when the lengths count no byte twice or the frames leave no gap.
   */
  lemma GapsZeroIff(m: EventMeta, iso: seq<IsoDescriptor>)
    requires Describes(m, iso)
    ensures Tight(iso) <==> forall rs, r, e :: Releases(rs, r, e) && e.meta == m && e.iso == iso ==> GapsZero(e)
  {
    hide Releases; hide Describes; hide GapsZero; hide SumLengths; hide InFrames;
    if Tight(iso) {
      forall rs, r, e | Releases(rs, r, e) && e.meta == m && e.iso == iso
        ensures GapsZero(e)
      {
        TightReleases(rs, r, e);
      }
    } else {
      var x: nat :| x < Span(iso) && x !in InFrames(iso);
      InFramesAtMost(iso);
      assert Span(iso) < TWO32 by { SpanFits(m, iso); }
      var rs, r, e := GapStream(m, iso, x);
    }
  }

  lemma SpanFits(m: EventMeta, iso: seq<IsoDescriptor>)
    requires Describes(m, iso)
    ensures Span(iso) < TWO32
  {
  }

  /** Two frames on the same byte and one beyond a gap. */
  const OVERLAPPING: seq<IsoDescriptor> := [IsoDescriptor(0, 0, 1), IsoDescriptor(0, 0, 1), IsoDescriptor(0, 2, 1)]

  const OVERLAPPING_META := EventMeta(7, 0, 1, 2, 0x81, 0, COMPLETION, 0, 1, 0, 3, 3, 3, 0, 0, 0, 3, 0, 0, 0,
                                      [0, 0, 0, 0, 0, 0, 0, 0])

  lemma OverlappingFrames()
    ensures Span(OVERLAPPING) == 3 && SumLengths(OVERLAPPING) == 3 && InFrames(OVERLAPPING) == {0, 2}
  {
    var a, b := IsoDescriptor(0, 0, 1), IsoDescriptor(0, 2, 1);
    assert [b][1..] == [] && SumLengths([]) == 0;
    assert SumLengths([b]) == 1;
    assert [a, b][1..] == [b];
    assert SumLengths([a, b]) == 2;
    assert [a, a, b][1..] == [a, b];
    assert SumLengths([a, a, b]) == 3;
    SpanMeans(OVERLAPPING);
    assert a in OVERLAPPING && b in OVERLAPPING;
    forall x: nat
      ensures x in InFrames(OVERLAPPING) <==> x == 0 || x == 2
    {
      InFramesMeans(OVERLAPPING, x);
    }
  }

  /** Such an event is released with a byte that no frame holds: a stream that does it. */
  lemma OverlapWithGap() returns (rs: seq<Record>, r: Record, e: Event)
    ensures Describes(OVERLAPPING_META, OVERLAPPING) && !Tight(OVERLAPPING)
    ensures Releases(rs, r, e) && e.meta == OVERLAPPING_META && e.iso == OVERLAPPING
    ensures |e.payload| == 3 && 1 !in InFrames(OVERLAPPING) && e.payload[1] != 0
  {
    hide Span; hide SumLengths; hide InFrames; hide Releases;
    OverlappingFrames();
    assert |{0, 2}| == 2;
    rs, r, e := GapStream(OVERLAPPING_META, OVERLAPPING, 1);
    assert |e.payload| == 3 by { ReleasedSize(rs, r, e); }
  }

  lemma ReleasedSize(rs: seq<Record>, r: Record, e: Event)
    requires Releases(rs, r, e)
    ensures |e.payload| == e.meta.payloadLen
  {
    hide Run; hide Unbounded; hide Explains; hide Own; hide IsSuffix; hide WellShaped; hide FaithfulTo;
    ReleasedMeansComplete(rs, r, e);
    PayloadSize(e);
  }
}
