/**
 What a captured event carries, from the kind of the event and the endpoint alone: data travels with OUT submissions
 and IN completions. An observation without faults is released exactly when its URB is one the program can copy, and
 then with exactly these bytes.
 */
module Contents {
  import opened Bytes
  import opened Records
  import opened Reassembly
  import opened Acceptance
  import opened Emission
  import opened Streams
  import opened EndToEnd
  import opened Capture
  import opened ScatterGather
  import F = InFlight

  // ----- how much -----

  /** The length of the data that the URB's event carries. */
  ghost predicate DataLength(u: Urb, n: nat) { CarriesBytes(u.meta, u.frames, n) }

  lemma DataLengthIs(u: Urb, n: nat)
    ensures DataLength(u, n) <==> n == PayloadLen(u)
  {
    CarriesExpected(u.meta, u.frames, n);
  }

  // ----- scatter-gather lengths -----

  function LengthsUpTo(chain: seq<Segment>, count: nat): nat
    requires count <= |chain|
  {
    if count == 0 then 0 else LengthsUpTo(chain, count - 1) + chain[count - 1].length
  }

  lemma {:induction false} GatheredIsSum(chain: seq<Segment>, count: nat, total: nat)
    requires count <= |chain|
    ensures Gathered(chain, count, total) == Min(total, LengthsUpTo(chain, count))
    decreases count
  {
    if count > 0 {
      GatheredIsSum(chain, count - 1, total);
    }
  }

  // ----- which URBs can be copied -----

  function Available(u: Urb): nat { LengthsUpTo(u.chain, Min(u.sgCount, |u.chain|)) }

  /** The buffer is one that the program copies, and holds `n` bytes. */
  predicate Copyable(u: Urb, translated: bool, n: nat) {
    n == 0
    || if u.meta.transferType == 0 || u.sgCount == 0 then u.sgCount == 0 && u.buffer != 0
       else translated && u.sgCount + (n + 16383) / 16384 < 0x1_0000_0000 && Available(u) >= n
  }

  /** Buffers stay below 2 GiB, the data inside the buffer, and so do ISO frames. */
  predicate Admissible(u: Urb, n: nat) {
    && n <= u.meta.requestedLen <= 0x7fff_ffff
    && (u.meta.transferType == 0 ==> forall d :: d in u.frames ==> d.offset + d.length <= u.meta.requestedLen)
  }

  lemma SoundIff(u: Urb, translated: bool, n: nat)
    requires DataLength(u, n)
    ensures Admissible(u, n) <==> Emittable(u)
    ensures Copyable(u, translated, n) <==> Supported(u, translated)
  {
    hide DataLength; hide PayloadLen;
    DataLengthIs(u, n);
    GatheredIsSum(u.chain, Entries(u), n);
    hide Gathered; hide LengthsUpTo;
  }

  // ----- which bytes -----

  /** Byte `y` of entry `j` lands where the lengths of the entries before it add up to. */
  ghost predicate EntryByte(memory: Memory, u: Urb, payload: seq<u8>, j: nat, y: nat) {
    j < Min(u.sgCount, |u.chain|) && y < u.chain[j].length && LengthsUpTo(u.chain, j) + y < |payload| ==>
      payload[LengthsUpTo(u.chain, j) + y] == memory((u.chain[j].source + y) % TWO64)
  }

  /** ISO data comes from inside the frames, with zeros between them; other data from the buffer or its entries. */
  ghost predicate DataBytes(memory: Memory, u: Urb, payload: seq<u8>) {
    if u.meta.transferType == 0 then
      forall x :: 0 <= x < |payload| ==>
                    payload[x] == if exists d :: d in u.frames && d.offset <= x < d.offset + d.length
                                  then memory((u.buffer + x) % TWO64) else 0
    else if u.sgCount == 0 then forall x :: 0 <= x < |payload| ==> payload[x] == memory((u.buffer + x) % TWO64)
    else forall j: nat, y: nat :: EntryByte(memory, u, payload, j, y)
  }

  lemma ExactBytes(memory: Memory, u: Urb, n: nat)
    requires DataLength(u, n) && n < TWO32 && (u.sgCount != 0 && u.meta.transferType != 0 ==> n <= Available(u))
    ensures PayloadLen(u) < TWO32
    ensures var e := ExactEvent(memory, u);
            && |e.payload| == n && e.iso == u.frames && DataBytes(memory, u, e.payload)
            && e.meta == u.meta.(payloadLen := n, hasData := if n != 0 then 1 else 0)
  {
    hide DataLength; hide PayloadLen; hide SgBytes; hide Gathered; hide LengthsUpTo;
    DataLengthIs(u, n);
    var payload := ExactEvent(memory, u).payload;
    if u.sgCount != 0 && u.meta.transferType != 0 {
      forall j: nat, y: nat
        ensures EntryByte(memory, u, payload, j, y)
      {
        if j < Entries(u) && y < u.chain[j].length && LengthsUpTo(u.chain, j) + y < n {
          GatheredIsSum(u.chain, j, n);
          SgByteAt(memory, u.chain, Entries(u), n, j, y);
        }
      }
    }
  }

  // ----- what a capture delivers -----

  /**
   An observation without faults: what is released, in terms of the URB. `n` is the length of the data its kind and
   endpoint call for.
   */
  ghost predicate DeliversExactly(x: Scene, u: Urb, n: nat, released: seq<Event>) {
    if Admissible(u, n) && Copyable(u, x.translated, n) then
      && |released| == 1 && released[0].iso == u.frames
      && released[0].meta == u.meta.(payloadLen := n, hasData := if n != 0 then 1 else 0)
      && |released[0].payload| == n && DataBytes(x.memory, u, released[0].payload)
    else released == []
  }

  lemma SoundCopies(u: Urb, translated: bool, n: nat)
    requires DataLength(u, n) && Admissible(u, n) && Copyable(u, translated, n)
    ensures n < TWO32 && (u.sgCount != 0 && u.meta.transferType != 0 ==> n <= Available(u))
  {
  }

  lemma SessionDelivers(d: Config, x: Scene, e: F.Emission, s: Session, n: nat)
    requires Shows(x, e, s) && DeliveredAs(d, e, s) && DataLength(s.urb, n)
    requires forall i: nat :: !x.faults(i)
    ensures DeliversExactly(x, s.urb, n, Released(d, s.id))
  {
    hide DataLength; hide Admissible; hide Copyable; hide Emittable; hide Supported; hide DataBytes; hide Stamped;
    SoundIff(s.urb, x.translated, n);
    hide ExactEvent; hide Full;
    if Admissible(s.urb, n) && Copyable(s.urb, x.translated, n) {
      assert s.losses == 0;
      SoundCopies(s.urb, x.translated, n);
      ExactBytes(x.memory, s.urb, n);
      assert Released(d, s.id) == [ExactEvent(s.memory, s.urb)];
      assert DeliversExactly(x, s.urb, n, Released(d, s.id));
    }
  }

  /** In every capture, whatever befalls the other observations and however the ring interleaves. */
  lemma ContentsDelivered(ps: seq<F.Firing>, scenes: nat -> Scene, ss: seq<Session>, rs: seq<Record>, k: nat, n: nat)
    requires ShowsAll(scenes, Published(F.Run(ps).log), ss) && Captured(ps, ss, rs) && k < |ss|
    requires forall i: nat :: !scenes(k).faults(i)
    requires DataLength(Stamped(scenes(k).urb, Published(F.Run(ps).log)[k]), n)
    ensures DeliversExactly(scenes(k), Stamped(scenes(k).urb, Published(F.Run(ps).log)[k]), n,
                            Released(Run(START, rs).value, ss[k].id))
  {
    hide Published; hide F.Run; hide Run; hide RunBounded; hide SessionOf; hide DataLength; hide Healthy;
    hide Stamped; hide KernelLosses; hide DeliversExactly; hide DeliveredAs;
    var x, e, s := scenes(k), Published(F.Run(ps).log)[k], ss[k];
    assert Shows(x, e, s);
    assert DeliveredAs(Run(START, rs).value, e, s);
    SessionDelivers(Run(START, rs).value, x, e, s, n);
  }
}
