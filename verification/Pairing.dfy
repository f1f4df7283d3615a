/**
 Pairing completions with submissions by source and URB id, over whole runs: what the pairing tables hold is
 exactly what the latest packet of a URB says, and no two interfaces of a file ever share a source id.
 */
module Pairing {
  import opened Bytes
  import opened Records
  import R = PcapngRead

  /** A packet as pairing sees it. */
  datatype Seen<K, V> = Seen(key: K, submit: bool, value: V)

  /** A submission is remembered until the next packet of its URB. */
  function Track<K, V>(table: map<K, V>, x: Seen<K, V>): map<K, V> {
    if x.submit then table[x.key := x.value] else table - {x.key}
  }

  function Table<K, V>(h: seq<Seen<K, V>>): map<K, V> {
    if h == [] then map[] else Track(Table(h[..|h| - 1]), h[|h| - 1])
  }

  /** The `i`th packet is the latest of its key in `h`. */
  ghost predicate IsLatest<K(!new), V(!new)>(h: seq<Seen<K, V>>, key: K, i: nat) {
    i < |h| && h[i].key == key && forall j :: i < j < |h| ==> h[j].key != key
  }

  ghost predicate LatestIsSubmission<K(!new), V(!new)>(h: seq<Seen<K, V>>, key: K) {
    exists i: nat :: IsLatest(h, key, i) && h[i].submit
  }

  /** The table holds a key exactly when the latest packet with it was a submission, and then what that one declared. */
  lemma {:induction false} TableIsLatest<K(!new), V(!new)>(h: seq<Seen<K, V>>, key: K)
    ensures key in Table(h) <==> LatestIsSubmission(h, key)
    ensures forall i: nat :: IsLatest(h, key, i) && h[i].submit ==> key in Table(h) && Table(h)[key] == h[i].value
  {
    if h != [] {
      var n: nat := |h| - 1;
      var before := h[..n];
      TableIsLatest(before, key);
      if h[n].key == key {
        assert IsLatest(h, key, n);
        assert forall i: nat :: IsLatest(h, key, i) ==> i == n;
      } else {
        assert forall i: nat :: IsLatest(h, key, i) <==> IsLatest(before, key, i);
      }
    }
  }

  lemma TableAppend<K, V>(h: seq<Seen<K, V>>, x: Seen<K, V>)
    ensures Table(h + [x]) == Track(Table(h), x)
  {
    assert (h + [x])[..|h|] == h;
  }

  // ----- the reader -----

  /** The packet of an Enhanced Packet Block captured whole, as pairing sees it. */
  function Observed(s: R.State, block: seq<u8>): seq<Seen<R.Key, u32>>
    requires |block| >= 12 && R.ValidState(s)
  {
    if |block| < 32 then [] else
    var index, caplen := s.endian.At32(block, 8), s.endian.At32(block, 20);
    if index >= |s.interfaces| || caplen < 64 || caplen < s.endian.At32(block, 24) || 28 + caplen > |block| then [] else
    var packet := block[28..28 + caplen];
    [Seen((s.interfaces[index].sourceId, s.endian.At64(packet, 0)), packet[8] == SUBMIT, s.endian.At32(packet, 32))]
  }

  /**
   A run of the reader: packets seen in this section, interfaces announced in the whole file and before this
   section, packet blocks read and events returned.
   */
  datatype Run = Run(state: R.State, history: seq<Seen<R.Key, u32>>, announced: nat, base: nat, packets: nat,
          returned: nat)

  function Begin(input: seq<u8>): Run { Run(R.Fresh(input), [], 0, 0, 0, 0) }

  function Advance(r: Run): Result<(Run, Option<Event>)>
    requires R.ValidState(r.state) && r.state.input != []
  {
    var t :- R.ReadBlock(r.state);
    if R.IsSection(r.state.input) then Ok((Run(t.0, [], r.announced, r.announced, r.packets, r.returned), t.1))
    else
      var block := R.TakeBlock(r.state.input, r.state.endian, 12).value;
      var kind := r.state.endian.At32(r.state.input, 0);
      var seen := if kind == 6 then Observed(r.state, block) else [];
      Ok((Run(t.0, r.history + seen, r.announced + (if kind == 1 then 1 else 0), r.base,
              r.packets + (if kind == 6 then 1 else 0), r.returned + (if t.1.Some? then 1 else 0)), t.1))
  }

  /** The run after `n` blocks. */
  function After(input: seq<u8>, n: nat): (r: Result<Run>)
    ensures r.Ok? ==> R.ValidState(r.value.state)
  {
    if n == 0 then Ok(Begin(input)) else
    var r :- After(input, n - 1);
    if r.state.input == [] then Err else
    var t :- Advance(r);
    Ok(t.0)
  }

  ghost predicate Tracks(r: Run) {
    && R.ValidState(r.state)
    && r.state.requested == Table(r.history)
    && r.state.nextSourceId == r.announced == r.base + |r.state.interfaces|
    && (forall i :: 0 <= i < |r.state.interfaces| ==> r.state.interfaces[i].sourceId == r.base + i)
    && r.packets == r.returned + r.state.incomplete
  }

  /** What a parsed packet does to the table, and what its event says. */
  ghost predicate Pairs(s: R.State, x: Seen<R.Key, u32>, t: R.State, event: Option<Event>) {
    && t.requested == Track(s.requested, x)
    && t.incomplete == s.incomplete + (if event.Some? then 0 else 1)
    && (event.Some? ==>
          var e := event.value;
          && x.key == (e.sourceId, e.meta.urbId) && (x.submit <==> e.meta.eventType == SUBMIT)
          && (e.requestedKnown <==> x.submit || x.key in s.requested)
          && e.meta.requestedLen
             == (if x.submit then x.value else if x.key in s.requested then s.requested[x.key] else 0))
  }

  lemma UsbPairs(s: R.State, source: u64, timestamp: u64, packet: seq<u8>)
    requires |packet| >= 64 && R.ReadUsb(s, source, timestamp, packet).Ok?
    ensures var t := R.ReadUsb(s, source, timestamp, packet).value;
            Pairs(s, Seen((source, s.endian.At64(packet, 0)), packet[8] == SUBMIT, s.endian.At32(packet, 32)), t.0, t.1)
  {
    hide R.LostData; hide R.Endian.At32; hide R.Endian.At16; hide R.ReadDescriptors;
    BaseKey(packet, s.endian, timestamp);
  }

  lemma BaseKey(packet: seq<u8>, endian: R.Endian, timestamp: u64)
    requires |packet| >= 64
    ensures R.BaseMeta(packet[..64], endian, timestamp).urbId == endian.At64(packet, 0)
    ensures R.BaseMeta(packet[..64], endian, timestamp).eventType == packet[8]
  {
    assert packet[..64][0..8] == packet[0..8];
  }

  /** A packet block either only counts a loss, or is one packet seen. */
  lemma PacketPairs(s: R.State, block: seq<u8>)
    requires |block| >= 12 && R.ValidState(s) && R.ReadPacket(s, block).Ok?
    ensures var t := R.ReadPacket(s, block).value;
            var seen := Observed(s, block);
            if seen == [] then t.0 == s.(incomplete := s.incomplete + 1) && t.1 == None
            else |seen| == 1 && Pairs(s, seen[0], t.0, t.1)
  {
    hide R.ReadUsb; hide R.Endian.At32; hide R.Endian.At64; hide Pairs;
    var index, caplen := s.endian.At32(block, 8), s.endian.At32(block, 20);
    if caplen >= 64 && caplen >= s.endian.At32(block, 24) {
      var ticks := s.endian.At32(block, 12) * TWO32 + s.endian.At32(block, 16);
      UsbPairs(s, s.interfaces[index].sourceId, R.Timestamp(ticks, s.interfaces[index]).value, block[28..28 + caplen]);
    }
  }

  /** What one event says of its request, in terms of the packets before it. */
  ghost predicate PairedByLatest(h: seq<Seen<R.Key, u32>>, e: Event) {
    var key := (e.sourceId, e.meta.urbId);
    && (e.meta.eventType == SUBMIT ==> e.requestedKnown)
    && (e.meta.eventType != SUBMIT ==>
          && (e.requestedKnown <==> LatestIsSubmission(h, key))
          && (!e.requestedKnown ==> e.meta.requestedLen == 0)
          && (forall i: nat :: IsLatest(h, key, i) && h[i].submit ==> e.meta.requestedLen == h[i].value))
  }

  lemma EmptyTable()
    ensures Table<R.Key, u32>([]) == map[]
  {
  }

  lemma PairedFrom(h: seq<Seen<R.Key, u32>>, s: R.State, x: Seen<R.Key, u32>, t: R.State, event: Option<Event>)
    requires s.requested == Table(h) && Pairs(s, x, t, event)
    ensures t.requested == Table(h + [x]) && t.incomplete == s.incomplete + (if event.Some? then 0 else 1)
    ensures event.Some? ==> PairedByLatest(h, event.value)
  {
    hide LatestIsSubmission; hide IsLatest;
    TableAppend(h, x);
    TableIsLatest(h, x.key);
  }

  lemma AdvanceTracks(r: Run)
    requires Tracks(r) && r.state.input != [] && Advance(r).Ok?
    ensures Tracks(Advance(r).value.0)
    ensures Advance(r).value.1.Some? ==> PairedByLatest(r.history, Advance(r).value.1.value)
  {
    hide R.ReadPacket; hide R.ReadOptions; hide R.Endian.At32; hide R.TakeBlock; hide Observed; hide Pairs;
    hide PairedByLatest; hide Table;
    var s := r.state;
    EmptyTable();
    if !R.IsSection(s.input) {
      var block := R.TakeBlock(s.input, s.endian, 12).value;
      var kind := s.endian.At32(s.input, 0);
      assert r.history + [] == r.history;
      if kind == 6 {
        PacketPairs(s, block);
        var seen := Observed(s, block);
        if seen != [] {
          assert seen == [seen[0]];
          var t := R.ReadPacket(s, block).value;
          PairedFrom(r.history, s, seen[0], t.0, t.1);
        }
      }
    }
  }

  /**
   After any number of blocks of any file the table is what the packets of this section say, source ids count the
   interfaces of the whole file, and every packet block was returned as an event or counted as incomplete.
   */
  lemma {:induction false} RunTracks(input: seq<u8>, n: nat)
    ensures After(input, n).Ok? ==> Tracks(After(input, n).value)
  {
    hide Advance;
    if n > 0 && After(input, n).Ok? {
      RunTracks(input, n - 1);
      AdvanceTracks(After(input, n - 1).value);
    }
  }

  /** The requested length an event carries, wherever in a file it is read. */
  lemma ReaderPairsByLatest(input: seq<u8>, n: nat)
    ensures After(input, n).Ok? && After(input, n).value.state.input != [] ==>
              var r := After(input, n).value;
              Advance(r).Ok? && Advance(r).value.1.Some? ==> PairedByLatest(r.history, Advance(r).value.1.value)
  {
    hide Advance; hide After; hide Tracks; hide PairedByLatest;
    RunTracks(input, n);
    if After(input, n).Ok? && After(input, n).value.state.input != [] && Advance(After(input, n).value).Ok? {
      AdvanceTracks(After(input, n).value);
    }
  }

  // ----- source ids -----

  /** Later in the same section, or in a later one whose ids start above. */
  ghost predicate Continues(r: Run, later: Run) {
    || (later.base == r.base && r.state.interfaces <= later.state.interfaces)
    || later.base >= r.announced
  }

  lemma AdvanceContinues(r: Run)
    requires Tracks(r) && r.state.input != [] && Advance(r).Ok?
    ensures Advance(r).value.0.announced >= r.announced && Advance(r).value.0.base >= r.base
    ensures Continues(r, Advance(r).value.0)
  {
    hide R.ReadPacket; hide R.ReadOptions; hide R.Endian.At32; hide R.TakeBlock; hide Observed; hide Table;
  }

  lemma {:induction false} RunContinues(input: seq<u8>, n: nat, more: nat)
    requires After(input, n + more).Ok?
    ensures After(input, n).Ok? && After(input, n).value.announced <= After(input, n + more).value.announced
    ensures After(input, n).value.base <= After(input, n + more).value.base
    ensures Continues(After(input, n).value, After(input, n + more).value)
  {
    hide Advance; hide Tracks;
    if more > 0 {
      RunContinues(input, n, more - 1);
      RunTracks(input, n + more - 1);
      var r, mid := After(input, n).value, After(input, n + more - 1).value;
      AdvanceContinues(mid);
      BaseBound(mid);
      RunTracks(input, n);
      BaseBound(r);
    }
  }

  lemma BaseBound(r: Run)
    requires Tracks(r)
    ensures r.base + |r.state.interfaces| == r.announced
  {
  }

  lemma SourcesDistinct(r: Run, later: Run, i: nat, j: nat)
    requires Tracks(r) && Tracks(later) && Continues(r, later)
    requires i < |r.state.interfaces| && j < |later.state.interfaces|
    requires r.state.interfaces[i].sourceId == later.state.interfaces[j].sourceId
    ensures i == j && r.base == later.base && r.state.interfaces[i] == later.state.interfaces[j]
  {
    hide Table;
    assert r.state.interfaces[i].sourceId == r.base + i && later.state.interfaces[j].sourceId == later.base + j;
  }

  /** Two interfaces anywhere in a file share a source id only if they are the same interface of the same section. */
  lemma SourcesNeverReused(input: seq<u8>, n: nat, more: nat, i: nat, j: nat)
    ensures After(input, n).Ok? && After(input, n + more).Ok? ==>
              var r, later := After(input, n).value, After(input, n + more).value;
              i < |r.state.interfaces| && j < |later.state.interfaces|
              && r.state.interfaces[i].sourceId == later.state.interfaces[j].sourceId ==>
                i == j && r.base == later.base && r.state.interfaces[i] == later.state.interfaces[j]
  {
    hide After; hide Tracks; hide Continues;
    if After(input, n).Ok? && After(input, n + more).Ok? {
      RunContinues(input, n, more);
      RunTracks(input, n);
      RunTracks(input, n + more);
      var r, later := After(input, n).value, After(input, n + more).value;
      if i < |r.state.interfaces| && j < |later.state.interfaces|
         && r.state.interfaces[i].sourceId == later.state.interfaces[j].sourceId {
        SourcesDistinct(r, later, i, j);
      }
    }
  }
}
