/**
 Walking a scatter-gather table: arrays of entries joined by chain entries, the last entry marked. Each step reads
 one data entry, translates its page and finds the next data entry.
 */
module ScatterGather {
  import opened Bytes
  import opened Arithmetic
  import opened PageMap
  import opened Records
  import opened Emission

  /** Bit 0 of `link` marks a chain entry, bit 1 the last entry; the rest is a pointer. */
  datatype Entry = Entry(link: u64, offset: u32, length: u32)

  /** Readable entries by address, the size of one, and what page translation needs. */
  datatype Env = Env(memory: map<u64, Entry>, stride: u32, bases: Bases, pageShift: u32, pageSize: u32)

  predicate IsChain(link: u64) { link % 2 == 1 }
  predicate IsLast(link: u64) { link / 2 % 2 == 1 }

  function Source(env: Env, e: Entry): Option<u64> {
    Translate(env.bases, env.pageShift, env.pageSize, e.link, e.offset)
  }

  /** One step: the entry's data and the address of the next data entry, 0 after the last. */
  function ReadSegment(env: Env, address: u64): Option<(Segment, u64)> {
    if address !in env.memory || Source(env, env.memory[address]).None? then None else
    var e := env.memory[address];
    var segment := Segment(Source(env, e).value, e.length);
    if IsLast(e.link) then Some((segment, 0)) else
    var after := Wrap(address + env.stride);
    if after !in env.memory then None else
    var link := env.memory[after].link;
    Some((segment, if IsChain(link) then link - link % 4 else after))
  }

  /** The first `n` segments from `address`, and where the walk stands after them. */
  function Walk(env: Env, address: u64, n: nat): (r: Option<(seq<Segment>, u64)>)
    ensures r.Some? ==> |r.value.0| == n
    decreases n
  {
    if n == 0 then Some(([], address)) else
    if address == 0 || ReadSegment(env, address).None? then None else
    var first := ReadSegment(env, address).value;
    var rest := Walk(env, first.1, n - 1);
    if rest.None? then None else Some(([first.0] + rest.value.0, rest.value.1))
  }

  // ----- tables as the kernel lays them out -----

  /** The data entries of one array; a chain entry follows them unless the table ends there. */
  datatype Block = Block(start: u64, entries: seq<Entry>)

  function At(env: Env, start: u64, i: nat): nat { start + Times(i, env.stride) }

  ghost predicate DataEntryOk(env: Env, b: Block, i: nat, ends: bool)
    requires i < |b.entries|
  {
    && 0 < At(env, b.start, i) < TWO64 && At(env, b.start, i) in env.memory
    && env.memory[At(env, b.start, i)] == b.entries[i]
    && b.entries[i].link % 4 == (if ends && i == |b.entries| - 1 then 2 else 0) && Source(env, b.entries[i]).Some?
  }

  ghost predicate Chained(env: Env, b: Block, next: Block) {
    && At(env, b.start, |b.entries|) < TWO64 && At(env, b.start, |b.entries|) in env.memory
    && next.start % 4 == 0 && env.memory[At(env, b.start, |b.entries|)].link == next.start + 1
  }

  ghost predicate BlockOk(env: Env, b: Block, ends: bool) {
    b.entries != [] && forall i :: 0 <= i < |b.entries| ==> DataEntryOk(env, b, i, ends)
  }

  ghost predicate TableOk(env: Env, blocks: seq<Block>)
    decreases blocks
  {
    && blocks != [] && BlockOk(env, blocks[0], |blocks| == 1)
    && (|blocks| > 1 ==> Chained(env, blocks[0], blocks[1]) && TableOk(env, blocks[1..]))
  }

  function Segments(env: Env, entries: seq<Entry>): (r: seq<Segment>)
    requires forall e :: e in entries ==> Source(env, e).Some?
    ensures |r| == |entries|
  {
    seq(|entries|, i requires 0 <= i < |entries| =>
      assert entries[i] in entries;
      Segment(Source(env, entries[i]).value, entries[i].length))
  }

  function AllEntries(blocks: seq<Block>): seq<Entry> {
    if blocks == [] then [] else blocks[0].entries + AllEntries(blocks[1..])
  }

  lemma {:induction false} Translatable(env: Env, blocks: seq<Block>)
    requires TableOk(env, blocks)
    ensures forall e :: e in AllEntries(blocks) ==> Source(env, e).Some?
    decreases blocks
  {
    var b := blocks[0];
    forall e | e in b.entries
      ensures Source(env, e).Some?
    {
      var i :| 0 <= i < |b.entries| && b.entries[i] == e;
      assert DataEntryOk(env, b, i, |blocks| == 1);
    }
    if |blocks| > 1 {
      Translatable(env, blocks[1..]);
    } else {
      assert AllEntries(blocks[1..]) == [];
    }
  }

  /** The marks of an entry, in the two low bits of its link. */
  lemma Marks(link: u64)
    ensures IsChain(link) <==> link % 4 == 1 || link % 4 == 3
    ensures IsLast(link) <==> link % 4 == 2 || link % 4 == 3
  {
  }

  lemma TimesNext(i: nat, d: nat)
    ensures Times(i + 1, d) == Times(i, d) + d && Times(0, d) == 0
  {
    Distribute(i, 1, d);
  }

  /** Inside a block the step leads to the neighbouring entry. */
  lemma StepWithin(env: Env, b: Block, i: nat, ends: bool)
    requires BlockOk(env, b, ends) && i + 1 < |b.entries|
    ensures 0 < At(env, b.start, i) < TWO64 && At(env, b.start, i + 1) < TWO64 && Source(env, b.entries[i]).Some?
    ensures ReadSegment(env, At(env, b.start, i))
            == Some((Segment(Source(env, b.entries[i]).value, b.entries[i].length), At(env, b.start, i + 1)))
  {
    hide Source; hide Times;
    assert DataEntryOk(env, b, i, ends) && DataEntryOk(env, b, i + 1, ends);
    Marks(b.entries[i].link);
    Marks(b.entries[i + 1].link);
    TimesNext(i, env.stride);
  }

  /** From the end of a block it leads across the chain entry to the next block, or nowhere after the last. */
  lemma StepAcross(env: Env, b: Block, i: nat, next: Block, ends: bool)
    requires BlockOk(env, b, ends) && i + 1 == |b.entries| && (!ends ==> Chained(env, b, next))
    ensures 0 < At(env, b.start, i) < TWO64 && Source(env, b.entries[i]).Some?
    ensures ReadSegment(env, At(env, b.start, i))
            == Some((Segment(Source(env, b.entries[i]).value, b.entries[i].length), if ends then 0 else next.start))
  {
    hide Source; hide Times; hide IsChain; hide IsLast;
    assert DataEntryOk(env, b, i, ends);
    Marks(b.entries[i].link);
    TimesNext(i, env.stride);
    ChainPointer(next.start);
  }

  lemma ChainPointer(p: u64)
    ensures p % 4 == 0 ==> IsChain(p + 1) && (p + 1) - (p + 1) % 4 == p
  {
    if p % 4 == 0 {
      var q := p / 4;
      DivisionUnique(p + 1, 4, q, 1);
      DivisionUnique(p + 1, 2, 2 * q, 1);
    }
  }

  lemma WalkCons(env: Env, address: u64, segment: Segment, next: u64, rest: seq<Segment>)
    requires address != 0 && ReadSegment(env, address) == Some((segment, next))
    requires Walk(env, next, |rest|) == Some((rest, 0))
    ensures Walk(env, address, |rest| + 1) == Some(([segment] + rest, 0))
  {
    hide ReadSegment;
  }

  lemma SegmentsCons(env: Env, all: seq<Entry>, i: nat)
    requires i < |all| && forall e :: e in all ==> Source(env, e).Some?
    ensures forall e :: e in all[i..] || e in all[i + 1..] ==> Source(env, e).Some?
    ensures Segments(env, all[i..]) == [Segment(Source(env, all[i]).value, all[i].length)] + Segments(env, all[i + 1..])
  {
    hide Source;
  }

  /** The walk from entry `i` of the first block yields every data entry from there on, in order, and then stops. */
  lemma {:induction false} WalkFrom(env: Env, blocks: seq<Block>, i: nat)
    requires TableOk(env, blocks) && i < |blocks[0].entries|
    requires forall e :: e in AllEntries(blocks) ==> Source(env, e).Some?
    ensures 0 < At(env, blocks[0].start, i) < TWO64
    ensures Walk(env, At(env, blocks[0].start, i), |AllEntries(blocks)[i..]|)
            == Some((Segments(env, AllEntries(blocks)[i..]), 0))
    decreases |blocks|, |blocks[0].entries| - i
  {
    hide Source; hide ReadSegment; hide BlockOk; hide Chained; hide At; hide Walk; hide Segments;
    var b, all := blocks[0], AllEntries(blocks);
    var ends := |blocks| == 1;
    assert all[i] == b.entries[i];
    SegmentsCons(env, all, i);
    var next: u64;
    if i + 1 < |b.entries| {
      StepWithin(env, b, i, ends);
      WalkFrom(env, blocks, i + 1);
      next := At(env, b.start, i + 1);
    } else if ends {
      StepAcross(env, b, i, b, true);
      assert AllEntries(blocks[1..]) == [] && all[i + 1..] == [];
      WalkNone(env);
      next := 0;
    } else {
      StepAcross(env, b, i, blocks[1], false);
      var rest := AllEntries(blocks[1..]);
      assert all[i + 1..] == rest && rest[0..] == rest;
      NonEmpty(env, blocks[1..]);
      WalkFrom(env, blocks[1..], 0);
      AtZero(env, blocks[1].start);
      next := blocks[1].start;
    }
    WalkCons(env, At(env, b.start, i), Segment(Source(env, all[i]).value, all[i].length), next,
      Segments(env, all[i + 1..]));
  }

  lemma NonEmpty(env: Env, blocks: seq<Block>)
    requires TableOk(env, blocks)
    ensures blocks[0].entries != []
  {
  }

  lemma WalkNone(env: Env)
    ensures Walk(env, 0, 0) == Some((Segments(env, []), 0))
  {
  }

  lemma AtZero(env: Env, start: u64)
    ensures At(env, start, 0) == start
  {
    TimesNext(0, env.stride);
  }

  /** Walking a table yields exactly its data entries, translated, in order; the step after the last is null. */
  lemma WalkExact(env: Env, blocks: seq<Block>)
    requires TableOk(env, blocks)
    ensures forall e :: e in AllEntries(blocks) ==> Source(env, e).Some?
    ensures Walk(env, blocks[0].start, |AllEntries(blocks)|) == Some((Segments(env, AllEntries(blocks)), 0))
  {
    hide Source; hide Walk;
    Translatable(env, blocks);
    AtZero(env, blocks[0].start);
    assert BlockOk(env, blocks[0], |blocks| == 1);
    WalkFrom(env, blocks, 0);
    assert AllEntries(blocks)[0..] == AllEntries(blocks);
  }

  // ----- the chain that the copy loop consumes -----

  /** The segments a loop over at most `n` entries reads before it meets the end or an unreadable entry. */
  function ChainFrom(env: Env, address: u64, n: nat): (chain: seq<Segment>)
    ensures |chain| <= n
    decreases n
  {
    if n == 0 || address == 0 || ReadSegment(env, address).None? then [] else
    var first := ReadSegment(env, address).value;
    [first.0] + ChainFrom(env, first.1, n - 1)
  }

  /** The loop stops early exactly where the walk does, and until then consumes what the walk yields. */
  lemma {:induction false} ChainFollowsWalk(env: Env, address: u64, n: nat, k: nat)
    requires k <= n
    ensures k <= |ChainFrom(env, address, n)| <==> Walk(env, address, k).Some?
    ensures k <= |ChainFrom(env, address, n)| ==> ChainFrom(env, address, n)[..k] == Walk(env, address, k).value.0
    decreases k
  {
    hide ReadSegment;
    if k > 0 && address != 0 && ReadSegment(env, address).Some? {
      var first := ReadSegment(env, address).value;
      ChainFollowsWalk(env, first.1, n - 1, k - 1);
      var rest := ChainFrom(env, first.1, n - 1);
      if k <= 1 + |rest| {
        assert ([first.0] + rest)[..k] == [first.0] + rest[..k - 1];
      }
    }
  }

  /** The whole walk is a walk of each of its beginnings. */
  lemma {:induction false} WalkPrefix(env: Env, address: u64, k: nat, n: nat)
    requires k <= n && Walk(env, address, n).Some?
    ensures Walk(env, address, k).Some? && Walk(env, address, k).value.0 == Walk(env, address, n).value.0[..k]
    decreases k
  {
    hide ReadSegment;
    if k > 0 {
      var first := ReadSegment(env, address).value;
      WalkPrefix(env, first.1, k - 1, n - 1);
      var rest := Walk(env, first.1, n - 1).value.0;
      assert ([first.0] + rest)[..k] == [first.0] + rest[..k - 1];
    }
  }

  /** Over a well-formed table the loop consumes the table's data entries, as many as it is told there are. */
  lemma ChainExact(env: Env, blocks: seq<Block>, n: nat)
    requires TableOk(env, blocks)
    ensures forall e :: e in AllEntries(blocks) ==> Source(env, e).Some?
    ensures ChainFrom(env, blocks[0].start, n) == Segments(env, AllEntries(blocks))[..Min(n, |AllEntries(blocks)|)]
  {
    hide ReadSegment; hide Source; hide BlockOk; hide Chained; hide Segments; hide Walk; hide ChainFrom;
    WalkExact(env, blocks);
    var all, start := Segments(env, AllEntries(blocks)), blocks[0].start;
    var k := Min(n, |all|);
    WalkPrefix(env, start, k, |all|);
    ChainFollowsWalk(env, start, n, k);
    var chain := ChainFrom(env, start, n);
    if n > |all| {
      WalkEnds(env, start, |all|, all);
      ChainFollowsWalk(env, start, n, |all| + 1);
    }
    assert chain[..k] == chain;
  }

  /** A walk that has come to the end goes no further. */
  lemma {:induction false} WalkEnds(env: Env, address: u64, n: nat, all: seq<Segment>)
    requires Walk(env, address, n) == Some((all, 0))
    ensures Walk(env, address, n + 1).None?
    decreases n
  {
    hide ReadSegment;
    if n > 0 {
      var first := ReadSegment(env, address).value;
      WalkEnds(env, first.1, n - 1, Walk(env, first.1, n - 1).value.0);
    }
  }

  // ----- what the delivered bytes are -----

  /** Byte `y` of entry `k` among the gathered bytes. */
  lemma {:induction false} SgByteAt(memory: Memory, chain: seq<Segment>, count: nat, total: nat, k: nat, y: nat)
    requires k < count <= |chain| && y < chain[k].length && Gathered(chain, k, total) + y < total
    ensures Gathered(chain, k, total) + y < Gathered(chain, count, total)
    ensures SgBytes(memory, chain, count, total)[Gathered(chain, k, total) + y] == memory(Address(chain[k].source, y))
    decreases count
  {
    hide Address;
    if k < count - 1 {
      SgByteAt(memory, chain, count - 1, total, k, y);
    }
  }

  /**
   Content and address meet: a delivered scatter-gather event holds, for each byte of each table entry that the
   payload reaches, the byte at that offset of the entry's page in the linear map.
   */
  lemma DeliveredFromPages(memory: Memory, env: Env, m: SgMemory, blocks: seq<Block>, u: Urb, k: nat,
          y: nat, pfn: nat)
    requires TableOk(env, blocks) && Arm64Bases(m, env.pageSize) == Some(env.bases) && env.pageShift == m.pageShift
    requires u.sgCount != 0 && !IsoTransfer(u.meta) && PayloadLen(u) < TWO32
    requires u.chain == ChainFrom(env, blocks[0].start, u.sgCount)
    requires k < Min(u.sgCount, |AllEntries(blocks)|) && k < |u.chain|
    requires y < AllEntries(blocks)[k].length && Gathered(u.chain, k, PayloadLen(u)) + y < PayloadLen(u)
    requires pfn < MaxPages(m)
    requires AllEntries(blocks)[k].link - AllEntries(blocks)[k].link % 4 == PageStruct(env.bases, env.pageSize, pfn)
    ensures var e := AllEntries(blocks)[k];
            var start := PageAddress(env.bases, m, pfn) + e.offset;
            start < TWO64
            && ExactEvent(memory, u).payload[Gathered(u.chain, k, PayloadLen(u)) + y] == memory(Address(start, y))
  {
    hide BlockOk; hide Chained; hide Gathered; hide SgBytes; hide ChainFrom; hide Arm64Bases; hide PageStruct;
    hide PageAddress; hide MaxPages;
    hide Address; hide Translate; hide AllEntries;
    var all := AllEntries(blocks);
    ChainExact(env, blocks, u.sgCount);
    assert all[k] in all;
    Even(env, all[k]);
    TranslationExact(m, env.pageSize, pfn, all[k].link, all[k].offset);
    SgByteAt(memory, u.chain, Entries(u), PayloadLen(u), k, y);
  }

  lemma Even(env: Env, e: Entry)
    requires Source(env, e).Some?
    ensures e.link % 2 == 0
  {
  }
}
