/**
 Filtering a capture file against filtering the capture itself: which answers carry over, and what becomes of
 latency, which is recomputed from times the format keeps only to the microsecond.
 */
module Refiltering {
  import opened Bytes
  import opened Records
  import opened Release
  import opened Filter
  import opened Pairing
  import opened Consumer
  import opened PcapngRoundTrip
  import Arithmetic
  import R = PcapngRead

  /** Fields the format keeps for one kind of transfer hold nothing in the others. */
  predicate FieldsKept(m: EventMeta) {
    && (IsoTransfer(m) || m.errorCount == 0)
    && (IsoTransfer(m) && m.setupPresent != 0 ==> m.setup == [0, 0, 0, 0, 0, 0, 0, 0])
  }

  /** What a file says of an event and its latency is what the capture knew. */
  predicate Kept(e: Event, known: bool, latency: Option<u64>, liveLatency: Option<u64>) {
    FieldsKept(e.meta) && (known ==> e.requestedKnown) && (latency.Some? ==> liveLatency == latency)
  }

  const ZERO_SETUP: Setup := [0, 0, 0, 0, 0, 0, 0, 0]

  predicate IsSetup(f: FieldName) { f == Request || f == RequestType || f == Value || f == Index || f == SetupLength }

  /** The five setup fields together determine all eight bytes. */
  lemma ZeroSetup(s: Setup)
    requires forall f :: IsSetup(f) ==> SetupField(f, s) == SetupField(f, ZERO_SETUP)
    ensures s == ZERO_SETUP
  {
    SetupIs(s);
    SetupIs(ZERO_SETUP);
    hide SetupField; hide U16At;
    assert IsSetup(Request) && IsSetup(RequestType) && IsSetup(Value) && IsSetup(Index) && IsSetup(SetupLength);
    TwoSame(s, ZERO_SETUP, 2); TwoSame(s, ZERO_SETUP, 4); TwoSame(s, ZERO_SETUP, 6);
  }

  lemma SetupIs(s: Setup)
    ensures SetupField(RequestType, s) == s[0] && SetupField(Request, s) == s[1]
    ensures SetupField(Value, s) == U16At(s, 2) && SetupField(Index, s) == U16At(s, 4)
    ensures SetupField(SetupLength, s) == U16At(s, 6)
  {
    hide U16At;
  }

  lemma TwoSame(s: Setup, t: Setup, at: nat)
    requires at + 2 <= 8 && U16At(s, at) == U16At(t, at)
    ensures s[at] == t[at] && s[at + 1] == t[at + 1]
  {
    R.TwoDigits(s[at..at + 2]);
    R.TwoDigits(t[at..at + 2]);
    Arithmetic.DivisionUnique(U16At(s, at), 256, s[at + 1], s[at]);
    Arithmetic.DivisionUnique(U16At(t, at), 256, t[at + 1], t[at]);
  }

  lemma FileKnowsLess(e: Event, number: u32, known: bool, latency: Option<u64>, liveLatency: Option<u64>)
    requires WellShaped(e) && (e.meta.eventType == SUBMIT ==> known) && Kept(e, known, latency, liveLatency)
    ensures KnowsMore(Canon(e, number, known), latency, e, liveLatency)
  {
    hide FromBe; hide U16At; hide WellShaped;
  }

  /** What fails to be kept shows in some field. */
  lemma UnkeptShows(e: Event, number: u32, known: bool, latency: Option<u64>, liveLatency: Option<u64>)
    requires KnowsMore(Canon(e, number, known), latency, e, liveLatency)
    ensures Kept(e, known, latency, liveLatency)
  {
    var c := Canon(e, number, known);
    PlainFields(c, latency);
    PlainFields(e, liveLatency);
    hide KnowsMore; hide FieldValue;
    FieldShows(Errors, c, latency, e, liveLatency);
    FieldShows(FieldName.Latency, c, latency, e, liveLatency);
    FieldShows(Requested, c, latency, e, liveLatency);
    if IsoTransfer(e.meta) && e.meta.setupPresent != 0 {
      forall f | IsSetup(f)
        ensures SetupField(f, e.meta.setup) == SetupField(f, ZERO_SETUP)
      {
        FieldShows(f, c, latency, e, liveLatency);
        SetupValue(f, c, latency);
        SetupValue(f, e, liveLatency);
      }
      ZeroSetup(e.meta.setup);
    }
  }

  lemma FieldShows(f: FieldName, ev: Event, latency: Option<u64>, more: Event, moreLatency: Option<u64>)
    requires KnowsMore(ev, latency, more, moreLatency)
    ensures FieldValue(f, ev, latency).Ok? && FieldValue(f, ev, latency).value.Some? ==>
              FieldValue(f, more, moreLatency) == FieldValue(f, ev, latency)
  {
    hide FieldValue;
  }

  lemma PlainFields(e: Event, latency: Option<u64>)
    ensures FieldValue(Errors, e, latency) == Ok(Some(e.meta.errorCount))
    ensures FieldValue(FieldName.Latency, e, latency) == Ok(if latency.Some? then Some(latency.value) else None)
    ensures FieldValue(Requested, e, latency) == Ok(if e.requestedKnown then Some(e.meta.requestedLen) else None)
  {
    hide PayloadField; hide SetupField;
  }

  lemma SetupValue(f: FieldName, e: Event, latency: Option<u64>)
    requires IsSetup(f)
    ensures FieldValue(f, e, latency)
            == Ok(if e.meta.setupPresent == 0 then None else Some(SetupField(f, e.meta.setup)))
  {
    hide PayloadField; hide SetupField;
  }

  lemma SameCapturedData(e: Event, number: u32, known: bool)
    requires WellShaped(e)
    ensures SameData(Canon(e, number, known), e) && FullPayload(Canon(e, number, known))
  {
  }

  /** The capture knows at least what the file says exactly when the event and its latency are kept. */
  lemma FileKnowsLessIff(e: Event, number: u32, known: bool, latency: Option<u64>, liveLatency: Option<u64>)
    requires WellShaped(e) && (e.meta.eventType == SUBMIT ==> known)
    ensures SameData(Canon(e, number, known), e) && FullPayload(Canon(e, number, known))
    ensures KnowsMore(Canon(e, number, known), latency, e, liveLatency) <==> Kept(e, known, latency, liveLatency)
  {
    hide KnowsMore; hide Kept; hide WellShaped; hide FullPayload; hide SameData;
    SameCapturedData(e, number, known);
    if KnowsMore(Canon(e, number, known), latency, e, liveLatency) {
      UnkeptShows(e, number, known, latency, liveLatency);
    }
    if Kept(e, known, latency, liveLatency) {
      FileKnowsLess(e, number, known, latency, liveLatency);
    }
  }

  /** Every definite answer on the event read back is the answer on the captured one exactly when both are kept. */
  lemma AnswersAgreeIff(e: Event, number: u32, known: bool, latency: Option<u64>, liveLatency: Option<u64>)
    requires WellShaped(e) && (e.meta.eventType == SUBMIT ==> known)
    ensures AnswersKept(Canon(e, number, known), latency, e, liveLatency) <==> Kept(e, known, latency, liveLatency)
  {
    hide KnowsMore; hide AnswersKept; hide Kept; hide WellShaped; hide FullPayload;
    FileKnowsLessIff(e, number, known, latency, liveLatency);
    AnswersKeptIff(Canon(e, number, known), latency, e, liveLatency);
  }

  lemma EventAnswersAgree(x: Expr, e: Event, number: u32, known: bool, latency: Option<u64>, liveLatency: Option<u64>)
    requires WellShaped(e) && FieldsKept(e.meta) && (e.meta.eventType == SUBMIT ==> known)
             && (known ==> e.requestedKnown)
    requires !NeedsLatency(x) && !Evaluate(x, Canon(e, number, known), latency).Err?
    requires !Evaluate(x, Canon(e, number, known), latency).value.Unknown?
    ensures Evaluate(x, e, liveLatency) == Evaluate(x, Canon(e, number, known), latency)
  {
    hide KnowsMore; hide Evaluate; hide WellShaped;
    FileKnowsLessIff(e, number, known, latency, latency);
    DefiniteAnswersStable(x, Canon(e, number, known), latency, e, latency);
    LatencyIrrelevant(x, e, latency, liveLatency);
  }

  // ----- latency before and after a file -----

  function Floored(t: u64): u64 { t / 1000 * 1000 }

  /**
   Latency from a file against the live one, for a submission at `s` and a completion at `c`: less than a
   microsecond off; equal when the two times fall alike within their microseconds; and known to the file alone when
   the clock stepped back within one microsecond.
   */
  lemma FlooredGap(s: u64, c: u64)
    ensures var live, late := Gap(s, c), Gap(Floored(s), Floored(c));
            && (s <= c ==> live.Some? && late.Some? && -1000 < late.value - live.value < 1000
                           && (late == live <==> s % 1000 == c % 1000))
            && (c < s ==> live.None? && (late.Some? <==> s / 1000 == c / 1000) && (late.Some? ==> late == Some(0)))
  {
  }

  /** The file's latency, if it gives one, is the live one. */
  predicate GapKept(s: u64, c: u64) {
    if s <= c then s % 1000 == c % 1000 else s / 1000 != c / 1000
  }

  /** The latest earlier event of the same URB, if it submitted, is at a time whose latency survives the file. */
  ghost predicate LatencyKept(es: seq<Event>, i: nat)
    requires i < |es|
  {
    es[i].meta.eventType != SUBMIT ==>
      forall j: nat :: IsLatest(SeenAll(es[..i]), KeyOf(es[i]), j) && es[j].meta.eventType == SUBMIT ==>
                         GapKept(es[j].meta.timestamp, es[i].meta.timestamp)
  }

  lemma {:induction false} LatestSurvives(es: seq<Event>, i: nat, j: nat)
    requires Writable(map[], es) && i < |es|
    ensures var file := CanonAll(map[], map[], es);
            IsLatest(SeenAll(file[..i]), KeyOf(file[i]), j) <==> IsLatest(SeenAll(es[..i]), KeyOf(es[i]), j)
  {
    hide CanonAll; hide Writable; hide SeenAll;
    var file := CanonAll(map[], map[], es);
    var h, k := SeenAll(es[..i]), SeenAll(file[..i]);
    forall m | 0 <= m < i
      ensures h[m].key == KeyOf(es[i]) <==> k[m].key == KeyOf(file[i])
    {
      assert h[m] == AsSeen(es[..i][m]) && k[m] == AsSeen(file[..i][m]);
      SameUrb(es, m, i);
    }
  }

  /** Recomputing an event's latency from the file floors both times. */
  lemma FileLatency(es: seq<Event>, i: nat)
    requires Writable(map[], es) && i < |es|
    ensures var file := CanonAll(map[], map[], es);
            var late, live := LatencyAfter(file[..i], file[i]), LatencyAfter(es[..i], es[i]);
            (late.Some? ==> live == late) <==> LatencyKept(es, i)
  {
    hide CanonAll; hide Writable; hide SeenAll; hide IsLatest; hide LatencyAfter; hide CanonMeta;
    var file := CanonAll(map[], map[], es);
    forall j: nat
      ensures IsLatest(SeenAll(file[..i]), KeyOf(file[i]), j) <==> IsLatest(SeenAll(es[..i]), KeyOf(es[i]), j)
    {
      LatestSurvives(es, i, j);
    }
    CanonTimes(es, i);
    assert SeenBefore(file[..i], KeyOf(file[i])) <==> SeenBefore(es[..i], KeyOf(es[i]));
    if SeenBefore(es[..i], KeyOf(es[i])) {
      var j: nat :| IsLatest(SeenAll(es[..i]), KeyOf(es[i]), j);
      OnlyLatest(SeenAll(es[..i]), KeyOf(es[i]), j);
      CanonTimes(es, j);
      LatencySince(es[..i], es[i], j);
      LatencySince(file[..i], file[i], j);
      FlooredGap(es[j].meta.timestamp, es[i].meta.timestamp);
    } else {
      NoLatency(es[..i], es[i]);
      NoLatency(file[..i], file[i]);
    }
  }

  lemma OnlyLatest<V(!new)>(h: seq<Seen<R.Key, V>>, key: R.Key, j: nat)
    requires IsLatest(h, key, j)
    ensures j < |h| && forall i: nat :: IsLatest(h, key, i) ==> i == j
  {
  }

  lemma CanonTimes(es: seq<Event>, i: nat)
    requires Writable(map[], es) && i < |es|
    ensures var c := CanonAll(map[], map[], es)[i];
            c.meta.timestamp == Floored(es[i].meta.timestamp) && c.meta.eventType == es[i].meta.eventType
  {
    hide CanonAll; hide Writable;
    CanonAt(map[], map[], es, i);
  }

  /**
   A whole file against the capture it came from. For every event, every filter that is definite on the file is
   equally definite on the capture exactly when the event's fields and its latency are kept.
   */
  lemma FileFiltersAgreeIff(es: seq<Event>, i: nat)
    requires Writable(map[], es) && i < |es| && WellShaped(es[i])
    ensures var file := CanonAll(map[], map[], es);
            AnswersKept(file[i], LatencyAfter(file[..i], file[i]), es[i], LatencyAfter(es[..i], es[i]))
            <==> FieldsKept(es[i].meta) && (file[i].requestedKnown ==> es[i].requestedKnown) && LatencyKept(es, i)
  {
    hide CanonAll; hide Writable; hide LatencyAfter; hide AnswersKept; hide LatencyKept; hide WellShaped;
    hide FieldsKept; hide CanonMeta;
    var file := CanonAll(map[], map[], es);
    CanonAt(map[], map[], es, i);
    FileLatency(es, i);
    AnswersAgreeIff(es[i], FinalNumbers(map[], es)[es[i].sourceId], file[i].requestedKnown,
                    LatencyAfter(file[..i], file[i]), LatencyAfter(es[..i], es[i]));
  }

  /** A filter that does not ask for latency needs nothing of the latencies, in any file. */
  lemma FileAnswersAgree(x: Expr, es: seq<Event>, i: nat, latency: Option<u64>,
          liveLatency: Option<u64>)
    requires Writable(map[], es) && i < |es| && WellShaped(es[i]) && FieldsKept(es[i].meta) && !NeedsLatency(x)
    ensures var e := CanonAll(map[], map[], es)[i];
            (e.requestedKnown ==> es[i].requestedKnown)
            && !Evaluate(x, e, latency).Err? && !Evaluate(x, e, latency).value.Unknown? ==>
              Evaluate(x, es[i], liveLatency) == Evaluate(x, e, latency)
  {
    hide CanonAll; hide Writable; hide Evaluate; hide WellShaped; hide FieldsKept; hide CanonMeta;
    CanonAt(map[], map[], es, i);
    var e := CanonAll(map[], map[], es)[i];
    if (e.requestedKnown ==> es[i].requestedKnown)
       && !Evaluate(x, e, latency).Err? && !Evaluate(x, e, latency).value.Unknown? {
      EventAnswersAgree(x, es[i], FinalNumbers(map[], es)[es[i].sourceId], e.requestedKnown, latency, liveLatency);
    }
  }

  /** Where everything is kept, filtering the file selects no event that filtering the capture would not. */
  lemma FileSelectsNoMore(o: Options, es: seq<Event>, i: nat)
    requires Writable(map[], es) && i < |es| && WellShaped(es[i]) && es[i].requestedKnown
    requires FieldsKept(es[i].meta) && LatencyKept(es, i)
    ensures var file := CanonAll(map[], map[], es);
            Accepted(o, file[..i], file[i]) ==> Accepted(o, es[..i], es[i])
  {
    hide CanonAll; hide Writable; hide LatencyAfter; hide LatencyKept; hide WellShaped; hide FieldsKept; hide Evaluate;
    FileFiltersAgreeIff(es, i);
    CanonAt(map[], map[], es, i);
  }

  // ----- latencies that do not survive -----

  lemma TwoFit(a: Event, b: Event)
    requires Fits(a) && Fits(b) && a.meta.eventType == SUBMIT && a.meta.requestedLen == b.meta.requestedLen
    ensures Writable(map[], [a, b]) && Pairable(map[], [a, b])
  {
    hide Fits; hide Unmatched;
    var n, p := Numbered(map[], a.sourceId), Unmatched(map[], a);
    assert [a, b][1..] == [b] && [b][1..] == [];
    assert Writable(n, [b]) by { assert Writable(Numbered(n, b.sourceId), []); }
    PendingOne(a);
    assert Pairable(p, [b]) by { assert Pairable(Unmatched(p, b), []); }
  }

  lemma PendingOne(a: Event)
    requires a.meta.eventType == SUBMIT
    ensures Unmatched(map[], a) == map[KeyOf(a) := a.meta.requestedLen] && |Unmatched(map[], a)| == 1
  {
  }

  /** A bulk IN request on one URB: submitted at one time, completed without data at another. */
  function Example(s: u64, c: u64): (es: seq<Event>)
    ensures |es| == 2 && Writable(map[], es) && Pairable(map[], es)
  {
    var m := EventMeta(7, s, 1, 2, 0x81, 3, SUBMIT, 0, 0, 0, 0, 0, 0, 0, 0, 0, 0, 0, 0, 0, ZERO_SETUP);
    var a, b := Event(0, m, [], [], true, true),
      Event(0, m.(timestamp := c, eventType := COMPLETION), [], [], true, true);
    TwoFit(a, b);
    [a, b]
  }

  lemma ExampleLatencies(s: u64, c: u64)
    ensures var es := Example(s, c);
            && WellShaped(es[0]) && WellShaped(es[1])
            && LatencyAfter(es[..1], es[1]) == Gap(s, c)
            && LatencyAfter(CanonAll(map[], map[], es)[..1], CanonAll(map[], map[], es)[1])
               == Gap(Floored(s), Floored(c))
  {
    hide CanonAll; hide Writable; hide Pairable; hide LatencyAfter;
    var es := Example(s, c);
    var file := CanonAll(map[], map[], es);
    assert SeenAll(es[..1])[0] == AsSeen(es[0]);
    assert IsLatest(SeenAll(es[..1]), KeyOf(es[1]), 0);
    LatestSurvives(es, 1, 0);
    CanonTimes(es, 0); CanonTimes(es, 1);
    LatencySince(es[..1], es[1], 0);
    LatencySince(file[..1], file[1], 0);
  }

  function LatencyBelow(n: u64): Expr { Test(Predicate(FieldName.Latency, None, Lt, n)) }

  lemma LatencyTest(n: u64, e: Event, latency: Option<u64>)
    ensures Evaluate(LatencyBelow(n), e, latency) == Ok(if latency.None? then Unknown else Of(latency.value < n))
  {
    hide PayloadField; hide SetupField;
  }

  /** 1500 ns of latency read back as 1000, so that a filter is true of the file and false of the capture. */
  lemma ShorterInFile()
    ensures var es := Example(1000, 2500);
            var file := CanonAll(map[], map[], es);
            && Evaluate(LatencyBelow(1200), file[1], LatencyAfter(file[..1], file[1])) == Ok(True)
            && Evaluate(LatencyBelow(1200), es[1], LatencyAfter(es[..1], es[1])) == Ok(False)
  {
    hide CanonAll; hide LatencyAfter; hide Example; hide Evaluate; hide LatencyBelow; hide Writable;
    var es := Example(1000, 2500);
    var file := CanonAll(map[], map[], es);
    ExampleLatencies(1000, 2500);
    LatencyTest(1200, es[1], LatencyAfter(es[..1], es[1]));
    LatencyTest(1200, file[1], LatencyAfter(file[..1], file[1]));
  }

  /** A clock that stepped back by 800 ns: no latency on the capture, zero in the file. */
  lemma KnownOnlyInFile()
    ensures var es := Example(1900, 1100);
            var file := CanonAll(map[], map[], es);
            && Evaluate(LatencyBelow(1), file[1], LatencyAfter(file[..1], file[1])) == Ok(True)
            && Evaluate(LatencyBelow(1), es[1], LatencyAfter(es[..1], es[1])) == Ok(Unknown)
  {
    hide CanonAll; hide LatencyAfter; hide Example; hide Evaluate; hide LatencyBelow; hide Writable;
    var es := Example(1900, 1100);
    var file := CanonAll(map[], map[], es);
    ExampleLatencies(1900, 1100);
    LatencyTest(1, es[1], LatencyAfter(es[..1], es[1]));
    LatencyTest(1, file[1], LatencyAfter(file[..1], file[1]));
  }
}
