/**
 What is known about every event the reassembler releases, from any stream whatsoever: each byte was
 supplied by a data record of that event, agrees with every record that covers it, and none is missing.
 */
module Release {
  import opened Bytes
  import opened Records
  import opened Reassembly
  import opened Transport
  import opened Streams

  predicate CoversOffset(r: Record, x: nat) {
    r.kind == RECORD_DATA && r.offset <= x < r.offset + |r.body|
  }

  function SumData(rs: seq<Record>): nat {
    if rs == [] then 0 else (if rs[0].kind == RECORD_DATA then |rs[0].body| else 0) + SumData(rs[1..])
  }

  function DecodeFrames(rs: seq<Record>): seq<IsoDescriptor> {
    if rs == [] then [] else
    (if rs[0].kind == RECORD_ISO && |rs[0].body| == 16 then [DecodeIso(rs[0].body)] else []) + DecodeFrames(rs[1..])
  }

  /** `b` is `a` extended by exactly the records `mid`. */
  ghost predicate Holdings(a: Assembly, mid: seq<Record>, b: Assembly) {
    && b.meta == a.meta
    && b.copied == a.copied + SumData(mid)
    && b.iso == a.iso + DecodeFrames(mid)
    && (forall x :: x in b.content <==> x in a.content || exists r :: r in mid && CoversOffset(r, x))
    && (forall r, x :: r in mid && CoversOffset(r, x) ==> x in b.content && b.content[x] == ByteAt(r.offset, r.body, x))
    && (forall x :: x in a.content ==> x in b.content && b.content[x] == a.content[x])
    && (forall x :: x in b.content ==> x in a.content || x < a.meta.payloadLen)
  }

  lemma ExtendHolds(a: Assembly, r: Record)
    requires IsBody(r) && Extend(a, r).Ok?
    ensures Holdings(a, [r], Extend(a, r).value)
  {
    var b := Extend(a, r).value;
    assert [r][1..] == [];
    assert SumData([r]) == if r.kind == RECORD_DATA then |r.body| else 0;
    if r.kind == RECORD_DATA {
      var f := Fragment(r.offset, r.body);
      forall x: nat
        ensures x in b.content <==> x in a.content || CoversOffset(r, x)
        ensures CoversOffset(r, x) ==> b.content[x] == ByteAt(r.offset, r.body, x)
        ensures x in a.content ==> b.content[x] == a.content[x]
      {
        assert x in f <==> CoversOffset(r, x);
        assert x in a.content && CoversOffset(r, x) ==> a.content[x] == ByteAt(r.offset, r.body, x);
      }
    }
  }

  lemma {:induction false} AssembleHolds(a: Assembly, mid: seq<Record>)
    requires (forall r :: r in mid ==> IsBody(r)) && Assemble(a, mid).Ok?
    ensures Holdings(a, mid, Assemble(a, mid).value)
    decreases mid
  {
    if mid != [] {
      var r, c := mid[0], Extend(a, mid[0]).value;
      ExtendHolds(a, r);
      AssembleHolds(c, mid[1..]);
      HoldingsCompose(a, r, c, mid[1..], Assemble(a, mid).value);
      assert [r] + mid[1..] == mid;
    }
  }

  lemma HoldingsCompose(a: Assembly, r: Record, c: Assembly, rest: seq<Record>, b: Assembly)
    requires Holdings(a, [r], c) && Holdings(c, rest, b)
    ensures Holdings(a, [r] + rest, b)
  {
    var mid := [r] + rest;
    assert mid[1..] == rest && [r][1..] == [];
    assert SumData(mid) == SumData([r]) + SumData(rest);
    assert DecodeFrames(mid) == DecodeFrames([r]) + DecodeFrames(rest);
    assert a.iso + DecodeFrames([r]) + DecodeFrames(rest) == a.iso + (DecodeFrames([r]) + DecodeFrames(rest));
    assert r in [r];
    forall x: nat
      ensures x in b.content <==> x in a.content || exists s :: s in mid && CoversOffset(s, x)
    {
      if x in c.content {
        assert x in a.content || CoversOffset(r, x);
        assert r in mid;
      }
      if s :| s in rest && CoversOffset(s, x) {
        assert s in mid;
      }
    }
    forall s, x | s in mid && CoversOffset(s, x)
      ensures x in b.content && b.content[x] == ByteAt(s.offset, s.body, x)
    {
      assert s == r || s in rest;
    }
  }

  // ----- the records behind an unfinished event -----

  /** `h` is a BEGIN and the body records after it, and they assemble to `a`. */
  ghost predicate Explains(h: seq<Record>, id: u64, a: Assembly) {
    && h != [] && (forall r :: r in h ==> r.id == id)
    && h[0].kind == RECORD_BEGIN && DecodeMeta(h[0].body) == Ok(a.meta)
    && (forall r :: r in h[1..] ==> IsBody(r))
    && Assemble(Assembly(a.meta, [], map[], 0), h[1..]) == Ok(a)
  }

  ghost predicate IsSuffix(h: seq<Record>, rs: seq<Record>) {
    |h| <= |rs| && h == rs[|rs| - |h|..]
  }

  /** The records of one event, without kernel summaries (which carry id zero). */
  function Own(rs: seq<Record>, id: u64): seq<Record> {
    if rs == [] then [] else
    var r := rs[|rs| - 1];
    Own(rs[..|rs| - 1], id) + if r.id == id && r.kind != RECORD_STATS then [r] else []
  }

  ghost predicate Explained(c: Config, rs: seq<Record>, id: u64) {
    id in c.state.pending ==> exists h :: IsSuffix(h, Own(rs, id)) && Explains(h, id, c.state.pending[id])
  }

  /** What a record other than END leaves open. */
  lemma ReactOpens(a: Option<Assembly>, r: Record, p: Reply)
    requires React(a, r) == Ok(p) && p.next.Some?
    ensures r.kind == RECORD_STATS ==> p.next == a
    ensures r.kind == RECORD_BEGIN ==> DecodeMeta(r.body) == Ok(p.next.value.meta)
                                       && p.next.value == Assembly(p.next.value.meta, [], map[], 0)
    ensures r.kind != RECORD_STATS && r.kind != RECORD_BEGIN ==>
            a.Some? && IsBody(r) && Extend(a.value, r) == Ok(p.next.value)
  {
  }

  lemma ExplainedStep(a: Option<Assembly>, own: seq<Record>, r: Record, b: Assembly)
    requires React(a, r).Ok? && React(a, r).value.next == Some(b) && r.kind != RECORD_STATS
    requires a.Some? ==> exists h :: IsSuffix(h, own) && Explains(h, r.id, a.value)
    ensures exists h :: IsSuffix(h, own + [r]) && Explains(h, r.id, b)
  {
    ReactOpens(a, r, React(a, r).value);
    if r.kind == RECORD_BEGIN {
      ExplainsBegin(r, b);
      assert IsSuffix([r], own + [r]);
    } else {
      var h :| IsSuffix(h, own) && Explains(h, r.id, a.value);
      ExplainsGrows(h, r.id, a.value, r, b);
      SuffixGrows(h, own, r);
    }
  }

  lemma SuffixGrows(h: seq<Record>, own: seq<Record>, r: Record)
    requires IsSuffix(h, own)
    ensures IsSuffix(h + [r], own + [r])
  {
  }

  lemma ExplainsBegin(r: Record, b: Assembly)
    requires r.kind == RECORD_BEGIN && DecodeMeta(r.body) == Ok(b.meta) && b == Assembly(b.meta, [], map[], 0)
    ensures Explains([r], r.id, b)
  {
    assert [r][1..] == [];
  }

  /** One more record keeps every unfinished event explained. */
  lemma TakeExplained(c: Config, rs: seq<Record>, r: Record, id: u64)
    requires Take(c, r).Ok? && Explained(c, rs, id)
    ensures Explained(Take(c, r).value, rs + [r], id)
  {
    var d := Take(c, r).value;
    assert (rs + [r])[..|rs|] == rs;
    if id in d.state.pending {
      if r.id == id && r.kind != RECORD_STATS {
        ExplainedStep(Lookup(c.state.pending, id), Own(rs, id), r, d.state.pending[id]);
      } else {
        if r.id == id {
          ReactOpens(Lookup(c.state.pending, id), r, React(Lookup(c.state.pending, id), r).value);
        }
        assert Own(rs + [r], id) == Own(rs, id);
        assert d.state.pending[id] == c.state.pending[id];
      }
    }
  }

  lemma ExtendMeta(a: Assembly, r: Record)
    requires IsBody(r) && Extend(a, r).Ok?
    ensures Extend(a, r).value.meta == a.meta
  {
  }

  lemma ExplainsGrows(h: seq<Record>, id: u64, a: Assembly, r: Record, b: Assembly)
    requires Explains(h, id, a) && r.id == id && IsBody(r) && Extend(a, r) == Ok(b)
    ensures Explains(h + [r], id, b)
  {
    hide Extend; hide DecodeMeta;
    var m := h[1..];
    assert (h + [r])[1..] == m + [r];
    ExtendMeta(a, r);
    AssembleAppend(Assembly(a.meta, [], map[], 0), m, [r]);
    assert [r][1..] == [];
    assert Assemble(a, [r]) == Assemble(b, []);
  }

  lemma RunOne(c: Config, r: Record)
    ensures Run(c, [r]) == Take(c, r)
  {
    hide Take;
    assert [r][1..] == [];
    if Take(c, r).Ok? {
      assert Run(Take(c, r).value, []) == Take(c, r);
    }
  }

  lemma NothingOpen(id: u64)
    ensures Run(START, []) == Ok(START) && Explained(START, [], id)
  {
  }

  lemma {:induction false} RunExplained(rs: seq<Record>, id: u64)
    requires Run(START, rs).Ok?
    ensures Explained(Run(START, rs).value, rs, id)
    decreases |rs|
  {
    hide Explained; hide Take; hide Own;
    if rs == [] {
      NothingOpen(id);
    } else {
      var p, r := rs[..|rs| - 1], rs[|rs| - 1];
      assert rs == p + [r];
      RunAppend(START, p, [r]);
      RunExplained(p, id);
      var c := Run(START, p).value;
      RunOne(c, r);
      hide Run;
      TakeExplained(c, p, r, id);
    }
  }

  // ----- counting bytes -----

  predicate Inside(start: nat, len: nat, x: nat) { start <= x < start + len }

  function Interval(start: nat, len: nat): set<nat> {
    set x: nat | x < start + len && Inside(start, len, x)
  }

  lemma {:induction false} IntervalSize(start: nat, len: nat)
    ensures |Interval(start, len)| == len
  {
    if len > 0 {
      IntervalSize(start, len - 1);
      assert Interval(start, len) == Interval(start, len - 1) + {start + len - 1};
    }
  }

  lemma SubsetSize(a: set<nat>, b: set<nat>)
    requires a <= b
    ensures |a| <= |b|
    ensures |a| == |b| ==> a == b
  {
    assert b == a + (b - a);
    assert |b| == |a| + |b - a|;
  }

  /** A data record adds at most its length in new bytes, and exactly that when nothing overlaps. */
  lemma {:induction false} ContentSize(a: Assembly, mid: seq<Record>)
    requires (forall r :: r in mid ==> IsBody(r)) && Assemble(a, mid).Ok?
    ensures var b := Assemble(a, mid).value;
            && |b.content| + a.copied <= |a.content| + b.copied
            && (!IsoTransfer(a.meta) ==> |b.content| + a.copied == |a.content| + b.copied)
    decreases mid
  {
    if mid != [] {
      var r, c := mid[0], Extend(a, mid[0]).value;
      if r.kind == RECORD_DATA {
        var f := Fragment(r.offset, r.body);
        assert f.Keys == Interval(r.offset, |r.body|);
        IntervalSize(r.offset, |r.body|);
        assert c.content.Keys == a.content.Keys + f.Keys;
        assert |a.content.Keys + f.Keys| + |a.content.Keys * f.Keys| == |a.content.Keys| + |f.Keys|;
        if !IsoTransfer(a.meta) {
          assert a.content.Keys * f.Keys == {};
        }
      }
      ContentSize(c, mid[1..]);
    }
  }

  // ----- ISO frames -----

  ghost predicate DisjointFrames(iso: seq<IsoDescriptor>) {
    forall i, j :: 0 <= i < j < |iso| ==>
      Interval(iso[i].offset, iso[i].length) !! Interval(iso[j].offset, iso[j].length)
  }

  function InFrames(iso: seq<IsoDescriptor>): set<nat> {
    if iso == [] then {} else Interval(iso[0].offset, iso[0].length) + InFrames(iso[1..])
  }

  lemma {:induction false} InFramesMeans(iso: seq<IsoDescriptor>, x: nat)
    ensures x in InFrames(iso) <==> InFrame(iso, x)
  {
    if iso != [] {
      InFramesMeans(iso[1..], x);
      if d :| d in iso && d.offset <= x < d.offset + d.length {
        assert d == iso[0] || d in iso[1..];
      }
    }
  }

  /** Disjoint frames cover as many bytes as their lengths sum to. */
  lemma {:induction false} InFramesSize(iso: seq<IsoDescriptor>)
    requires DisjointFrames(iso)
    ensures |InFrames(iso)| == SumLengths(iso)
  {
    if iso != [] {
      var first, rest := Interval(iso[0].offset, iso[0].length), iso[1..];
      assert forall i, j :: 0 <= i < j < |rest| ==> rest[i] == iso[i + 1] && rest[j] == iso[j + 1];
      InFramesSize(rest);
      IntervalSize(iso[0].offset, iso[0].length);
      forall x | x in first
        ensures x !in InFrames(rest)
      {
        InFramesMeans(rest, x);
        forall d | d in rest
          ensures !(d.offset <= x < d.offset + d.length)
        {
          var j :| 0 <= j < |rest| && rest[j] == d;
          assert iso[j + 1] == d;
          assert x !in Interval(iso[j + 1].offset, iso[j + 1].length);
        }
      }
      assert first !! InFrames(rest);
    }
  }

  lemma {:induction false} SpanMeans(iso: seq<IsoDescriptor>)
    ensures forall d :: d in iso && d.length != 0 ==> d.offset + d.length <= Span(iso)
    ensures Span(iso) != 0 ==> exists d :: d in iso && d.length != 0 && d.offset + d.length == Span(iso)
  {
    if iso != [] {
      var p := iso[..|iso| - 1];
      assert iso == p + [iso[|iso| - 1]];
      SpanMeans(p);
      assert forall d :: d in iso ==> d in p || d == iso[|iso| - 1];
    }
  }

  // ----- released events -----

  /** What a consumer may rely on in a released event, whoever produced the records. */
  ghost predicate WellShaped(e: Event) {
    && MetaOk(e.meta)
    && |e.payload| == e.meta.payloadLen
    && |e.iso| == e.meta.isoCount
    && e.meta.payloadLen == ExpectedPayload(e.meta, e.iso)
    && (e.meta.hasData != 0 <==> e.meta.payloadLen != 0)
    && (IsoTransfer(e.meta) ==> FramesInside(e.iso, e.meta.requestedLen))
    && (IsoTransfer(e.meta) && e.meta.hasData != 0 ==>
          forall d :: d in e.iso && d.length != 0 ==> d.offset + d.length <= e.meta.payloadLen)
  }

  /** Offsets whose bytes the event promises. */
  ghost predicate Required(e: Event, x: nat) {
    e.meta.hasData != 0
    && if IsoTransfer(e.meta) then InFrame(e.iso, x)
       else x < e.meta.payloadLen
  }

  /** The event is exactly what the records `h` say. */
  ghost predicate FaithfulTo(e: Event, h: seq<Record>) {
    && h != [] && h[0].kind == RECORD_BEGIN && DecodeMeta(h[0].body) == Ok(e.meta)
    && e.iso == DecodeFrames(h[1..])
    && (forall x: nat :: Required(e, x) ==> exists r :: r in h[1..] && CoversOffset(r, x))
    && (forall r, x: nat :: r in h[1..] && CoversOffset(r, x) ==>
       x < |e.payload| && e.payload[x] == ByteAt(r.offset, r.body, x))
    && (forall x :: 0 <= x < |e.payload| && !(exists r :: r in h[1..] && CoversOffset(r, x)) ==> e.payload[x] == 0)
    && (!IsoTransfer(e.meta) ==> SumData(h[1..]) == e.meta.payloadLen)
    && (IsoTransfer(e.meta) && DisjointFrames(e.iso) ==>
          forall r, x: nat :: r in h[1..] && CoversOffset(r, x) ==> Required(e, x))
  }

  /** A finished assembly has exactly the bytes its metadata declares. */
  lemma FinishedShape(a: Assembly, copied: u64, descriptors: u32, reason: u32)
    requires MetaOk(a.meta) && Finished(a, copied, descriptors, reason)
    requires IsoTransfer(a.meta) ==> FramesInside(a.iso, a.meta.requestedLen)
    requires forall x :: x in a.content ==> x < a.meta.payloadLen
    requires |a.content| <= a.copied
    ensures WellShaped(Release(a))
  {
    SpanMeans(a.iso);
    var n := a.meta.payloadLen;
    if a.meta.hasData == 0 {
      assert a.content == map[];
    } else if IsoTransfer(a.meta) {
      var d :| d in a.iso && d.length != 0 && d.offset + d.length == n;
      assert Written(a.content, d.offset, d.length);
      assert d.offset <= n - 1 < d.offset + d.length;
      assert n - 1 in a.content;
    } else {
      assert Written(a.content, 0, n);
      assert n - 1 in a.content;
    }
    assert IsExtent(a.content.Keys, n);
  }

  /** With disjoint frames, counting shows that nothing was written outside them. */
  lemma FinishedFramesExact(a: Assembly)
    requires IsoTransfer(a.meta) && DisjointFrames(a.iso) && DataComplete(a)
    requires |a.content| <= a.copied
    ensures a.meta.hasData != 0 ==> a.content.Keys == InFrames(a.iso)
    ensures a.meta.hasData == 0 ==> a.content == map[]
  {
    if a.meta.hasData != 0 {
      forall x | x in InFrames(a.iso)
        ensures x in a.content
      {
        InFramesMeans(a.iso, x);
      }
      InFramesSize(a.iso);
      SubsetSize(InFrames(a.iso), a.content.Keys);
    }
  }

  /**
   Released means complete: an event released by the END record `r` after any stream `rs` is exactly
   what that event's own BEGIN, DATA and ISO records since its BEGIN say, with no byte missing.
   */
  lemma ReleasedMeansComplete(rs: seq<Record>, r: Record, e: Event)
    requires Run(START, rs).Ok?
    requires Unbounded(Run(START, rs).value.state, r).Ok?
    requires Unbounded(Run(START, rs).value.state, r).value.1 == Some(e)
    ensures WellShaped(e)
    ensures exists h :: IsSuffix(h, Own(rs, r.id)) && FaithfulTo(e, h)
  {
    var c := Run(START, rs).value;
    RunExplained(rs, r.id);
    var a := ReleasedFrom(c.state, r, e);
    var h :| IsSuffix(h, Own(rs, r.id)) && Explains(h, r.id, a);
    ExplainedRelease(a, r, h);
  }

  /** A release comes from an END record that finds its event finished. */
  lemma ReleasedFrom(s: State, r: Record, e: Event) returns (a: Assembly)
    requires Unbounded(s, r).Ok? && Unbounded(s, r).value.1 == Some(e)
    ensures r.id in s.pending && s.pending[r.id] == a && e == Release(a) && |r.body| == 16
    ensures IsoTransfer(a.meta) ==> FramesInside(a.iso, a.meta.requestedLen)
    ensures Finished(a, U64At(r.body, 0), U32At(r.body, 8), U32At(r.body, 12))
  {
    a := s.pending[r.id];
  }

  lemma ExplainedRelease(a: Assembly, r: Record, h: seq<Record>)
    requires Explains(h, r.id, a) && |r.body| == 16
    requires IsoTransfer(a.meta) ==> FramesInside(a.iso, a.meta.requestedLen)
    requires Finished(a, U64At(r.body, 0), U32At(r.body, 8), U32At(r.body, 12))
    ensures WellShaped(Release(a)) && FaithfulTo(Release(a), h)
  {
    var empty := Assembly(a.meta, [], map[], 0);
    AssembleHolds(empty, h[1..]);
    ContentSize(empty, h[1..]);
    FinishedShape(a, U64At(r.body, 0), U32At(r.body, 8), U32At(r.body, 12));
    FinishedFaithful(a, h, U64At(r.body, 0), U32At(r.body, 8), U32At(r.body, 12));
  }

  lemma RequiredWritten(a: Assembly, x: nat)
    requires DataComplete(a) && Required(Release(a), x)
    ensures x in a.content
  {
    if IsoTransfer(a.meta) {
      var d :| d in a.iso && d.offset <= x < d.offset + d.length;
      assert Written(a.content, d.offset, d.length);
    } else {
      assert Written(a.content, 0, a.meta.payloadLen);
    }
  }

  lemma WrittenRequired(a: Assembly, x: nat)
    requires DataComplete(a) && |a.content| <= a.copied && IsoTransfer(a.meta) && DisjointFrames(a.iso)
    requires x in a.content
    ensures Required(Release(a), x)
  {
    FinishedFramesExact(a);
    InFramesMeans(a.iso, x);
  }

  lemma CopiedWhole(a: Assembly)
    requires DataComplete(a) && !IsoTransfer(a.meta) && |a.content| == a.copied
    requires a.meta.hasData == 0 ==> a.meta.payloadLen == 0
    requires forall x :: x in a.content ==> x < a.meta.payloadLen
    ensures a.copied == a.meta.payloadLen
  {
    if a.meta.hasData != 0 {
      assert Written(a.content, 0, a.meta.payloadLen);
      assert a.content.Keys == Interval(0, a.meta.payloadLen);
      IntervalSize(0, a.meta.payloadLen);
    }
  }

  lemma FinishedFaithful(a: Assembly, h: seq<Record>, copied: u64, descriptors: u32, reason: u32)
    requires h != [] && h[0].kind == RECORD_BEGIN && DecodeMeta(h[0].body) == Ok(a.meta)
    requires Holdings(Assembly(a.meta, [], map[], 0), h[1..], a)
    requires |a.content| <= a.copied && (!IsoTransfer(a.meta) ==> |a.content| == a.copied)
    requires Finished(a, copied, descriptors, reason) && WellShaped(Release(a))
    ensures FaithfulTo(Release(a), h)
  {
    assert a.iso == [] + DecodeFrames(h[1..]);
    assert a.copied == 0 + SumData(h[1..]);
    forall x: nat | Required(Release(a), x)
      ensures x in a.content
    {
      RequiredWritten(a, x);
    }
    if !IsoTransfer(a.meta) {
      CopiedWhole(a);
    } else if DisjointFrames(a.iso) {
      forall x: nat | x in a.content
        ensures Required(Release(a), x)
      {
        WrittenRequired(a, x);
      }
    }
    HoldingsFaithful(a, h);
  }

  lemma HoldingsFaithful(a: Assembly, h: seq<Record>)
    requires h != [] && h[0].kind == RECORD_BEGIN && DecodeMeta(h[0].body) == Ok(a.meta)
    requires Holdings(Assembly(a.meta, [], map[], 0), h[1..], a) && a.iso == DecodeFrames(h[1..])
    requires forall x: nat :: Required(Release(a), x) ==> x in a.content
    requires !IsoTransfer(a.meta) ==> SumData(h[1..]) == a.meta.payloadLen
    requires IsoTransfer(a.meta) && DisjointFrames(a.iso) ==>
             forall x: nat :: x in a.content ==> Required(Release(a), x)
    ensures FaithfulTo(Release(a), h)
  {
    hide DecodeMeta; hide DecodeFrames; hide SumData; hide DisjointFrames; hide Required; hide CoversOffset;
    var p := Release(a).payload;
    assert p == Fill(a.content);
  }
}
