/**
 Files that other programs write: an encoder for pcapng blocks of either byte order, with any interface options, and
 what the reader makes of each block. Numbers here are written by `InOrder`, independently of how they are read.
 */
module Foreign {
  import opened Bytes
  import opened Records
  import opened R = PcapngRead
  import Wire

  // ----- numbers in either byte order -----

  function Turned(b: seq<u8>): (r: seq<u8>)
    ensures |r| == |b| && forall i :: 0 <= i < |b| ==> r[i] == b[|b| - 1 - i]
  {
    if b == [] then [] else Turned(b[1..]) + [b[0]]
  }

  /** The `w` bytes of `v`, lowest first or highest first. */
  function InOrder(e: Endian, v: nat, w: nat): (b: seq<u8>)
    ensures |b| == w
  {
    if e.Little? then Le(v, w) else Turned(Le(v, w))
  }

  lemma OrderUndone(e: Endian, v: nat, w: nat)
    ensures e.Order(InOrder(e, v, w)) == Le(v, w)
  {
  }

  lemma Number(e: Endian, b: seq<u8>, at: nat, v: nat)
    ensures at + 2 <= |b| && b[at..at + 2] == InOrder(e, v, 2) && v < 0x1_0000 ==> e.At16(b, at) == v
    ensures at + 4 <= |b| && b[at..at + 4] == InOrder(e, v, 4) && v < TWO32 ==> e.At32(b, at) == v
    ensures at + 8 <= |b| && b[at..at + 8] == InOrder(e, v, 8) && v < TWO64 ==> e.At64(b, at) == v
  {
    Pow256Values();
    hide Le; hide Endian.Order; hide InOrder;
    OrderUndone(e, v, 2); OrderUndone(e, v, 4); OrderUndone(e, v, 8);
    if v < 0x1_0000 { LeRoundTrip(v, 2); }
    if v < TWO32 { LeRoundTrip(v, 4); }
    if v < TWO64 { LeRoundTrip(v, 8); }
  }

  /** Every string of bytes is some number's. */
  lemma {:induction false} LeOf(b: seq<u8>)
    ensures Le(FromLe(b), |b|) == b
  {
    if b != [] {
      LeOf(b[1..]);
      assert FromLe(b) % 256 == b[0] && FromLe(b) / 256 == FromLe(b[1..]);
      assert [b[0]] + b[1..] == b;
    }
  }

  lemma {:induction false} TurnedTwice(b: seq<u8>)
    ensures Turned(Turned(b)) == b
  {
  }

  lemma BytesOf(e: Endian, b: seq<u8>)
    ensures b == InOrder(e, FromLe(e.Order(b)), |b|)
  {
    hide Le; hide FromLe; hide Turned;
    LeOf(e.Order(b));
    if e.Big? {
      assert e.Order(b) == Turned(b);
      TurnedTwice(b);
    }
  }

  lemma WordOf(e: Endian, b: seq<u8>)
    requires |b| == 4
    ensures b == InOrder(e, e.At32(b, 0), 4)
  {
    hide FromLe; hide InOrder; hide Endian.Order;
    assert b[0..4] == b;
    BytesOf(e, b);
  }

  lemma QuadOf(e: Endian, b: seq<u8>)
    requires |b| == 8
    ensures b == InOrder(e, e.At64(b, 0), 8)
  {
    hide FromLe; hide InOrder; hide Endian.Order;
    assert b[0..8] == b;
    BytesOf(e, b);
  }

  // ----- packed fields in either byte order -----

  function Size(f: Fields): nat {
    match f
    case End => 0
    case B1(_, rest) => 1 + Size(rest)
    case B2(_, rest) => 2 + Size(rest)
    case B4(_, rest) => 4 + Size(rest)
    case B8(_, rest) => 8 + Size(rest)
  }

  function PackIn(e: Endian, f: Fields): (b: seq<u8>)
    ensures |b| == Size(f)
  {
    match f
    case End => []
    case B1(v, rest) => [v] + PackIn(e, rest)
    case B2(v, rest) => InOrder(e, v, 2) + PackIn(e, rest)
    case B4(v, rest) => InOrder(e, v, 4) + PackIn(e, rest)
    case B8(v, rest) => InOrder(e, v, 8) + PackIn(e, rest)
  }

  predicate ReadsIn(e: Endian, b: seq<u8>, at: nat, f: Fields, tail: seq<u8>)
    decreases f
  {
    match f
    case End => at <= |b| && b[at..] == tail
    case B1(v, rest) => at + 1 <= |b| && b[at] == v && ReadsIn(e, b, at + 1, rest, tail)
    case B2(v, rest) => at + 2 <= |b| && e.At16(b, at) == v && ReadsIn(e, b, at + 2, rest, tail)
    case B4(v, rest) => at + 4 <= |b| && e.At32(b, at) == v && ReadsIn(e, b, at + 4, rest, tail)
    case B8(v, rest) => at + 8 <= |b| && e.At64(b, at) == v && ReadsIn(e, b, at + 8, rest, tail)
  }

  /** Fields packed in one byte order are read back in it, at their running offsets. */
  lemma {:induction false} UnpackIn(e: Endian, b: seq<u8>, at: nat, f: Fields, tail: seq<u8>)
    requires at <= |b| && b[at..] == PackIn(e, f) + tail
    ensures ReadsIn(e, b, at, f, tail)
    decreases f
  {
    hide InOrder; hide Endian.At16; hide Endian.At32; hide Endian.At64;
    match f
    case End =>
      assert b[at..] == tail;
    case B1(v, rest) =>
      SplitPacked(b, at, [v], PackIn(e, rest), tail);
      assert b[at..at + 1][0] == v;
      UnpackIn(e, b, at + 1, rest, tail);
    case B2(v, rest) =>
      SplitPacked(b, at, InOrder(e, v, 2), PackIn(e, rest), tail);
      Number(e, b, at, v);
      UnpackIn(e, b, at + 2, rest, tail);
    case B4(v, rest) =>
      SplitPacked(b, at, InOrder(e, v, 4), PackIn(e, rest), tail);
      Number(e, b, at, v);
      UnpackIn(e, b, at + 4, rest, tail);
    case B8(v, rest) =>
      SplitPacked(b, at, InOrder(e, v, 8), PackIn(e, rest), tail);
      Number(e, b, at, v);
      UnpackIn(e, b, at + 8, rest, tail);
  }

  // ----- interface options -----

  /** An option: its code, its value, and bytes that fill up to a multiple of four. */
  datatype Opt = Opt(code: u16, value: seq<u8>, padding: seq<u8>) {
    predicate Valid() { code != 0 && |value| < 0x1_0000 && |padding| < 4 && (|value| + |padding|) % 4 == 0 }
  }

  function OptBytes(e: Endian, o: Opt): seq<u8>
    requires o.Valid()
  {
    PackIn(e, B2(o.code, B2(|o.value|, End))) + (o.value + o.padding)
  }

  function OptsBytes(e: Endian, os: seq<Opt>): seq<u8>
    requires forall o :: o in os ==> o.Valid()
  {
    if os == [] then [] else OptBytes(e, os[0]) + OptsBytes(e, os[1..])
  }

  /** Too few bytes for another option, or an end marker before whatever else there is. */
  predicate Ends(e: Endian, tail: seq<u8>) { |tail| < 4 || tail[..4] == [0, 0, 0, 0] }

  /** Ticks a second: a power of ten, or of two when the high bit is set. */
  function Ticks(v: u8): nat { if v < 128 then Power(10, v) else Power(2, v - 128) }

  /** A resolution has one byte and fits 64 bits; an offset has eight bytes. */
  predicate Acceptable(os: seq<Opt>) {
    forall o :: o in os ==>
                  && (o.code == 9 ==> |o.value| == 1 && Ticks(o.value[0]) < 0x1_0000_0000_0000_0000)
                  && (o.code == 14 ==> |o.value| == 8)
  }

  predicate LastWith(os: seq<Opt>, code: u16, k: nat) {
    k < |os| && os[k].code == code && forall j :: k < j < |os| ==> os[j].code != code
  }

  /** The eight bytes of a signed number. */
  predicate Signs(e: Endian, b: seq<u8>, n: int) {
    -0x8000_0000_0000_0000 <= n < 0x8000_0000_0000_0000
    && b == InOrder(e, if n < 0 then n + 0x1_0000_0000_0000_0000 else n, 8)
  }

  /** The last resolution and the last offset count; every other option changes nothing. */
  ghost predicate Configured(e: Endian, os: seq<Opt>, i: Interface, r: Interface) {
    && r.sourceId == i.sourceId && r.linktype == i.linktype
    && (forall k: nat :: LastWith(os, 9, k) && |os[k].value| == 1 ==> r.units == Ticks(os[k].value[0]))
    && ((forall o :: o in os ==> o.code != 9) ==> r.units == i.units)
    && (forall k: nat :: LastWith(os, 14, k) ==> Signs(e, os[k].value, r.offset))
    && ((forall o :: o in os ==> o.code != 14) ==> r.offset == i.offset)
  }

  lemma SignedValue(e: Endian, b: seq<u8>)
    requires |b| == 8
    ensures Signs(e, b, Signed64(e.At64(b, 0)))
  {
    hide InOrder; hide Endian.At64;
    QuadOf(e, b);
  }

  lemma OptionAt(e: Endian, o: Opt, rest: seq<u8>)
    requires o.Valid()
    ensures var b := OptBytes(e, o) + rest;
            && |b| == 4 + |o.value| + |o.padding| + |rest|
            && e.At16(b, 0) == o.code && e.At16(b, 2) == |o.value|
            && b[4..4 + |o.value|] == o.value && b[4 + |o.value| + |o.padding|..] == rest
  {
    hide PackIn; hide Endian.At16;
    var f, body := B2(o.code, B2(|o.value|, End)), o.value + o.padding;
    var b := OptBytes(e, o) + rest;
    Associate(PackIn(e, f), body, rest);
    assert b[0..] == b;
    UnpackIn(e, b, 0, f, body + rest);
    assert ReadsIn(e, b, 2, f.rest, body + rest);
    assert ReadsIn(e, b, 4, End, body + rest);
    assert b[4..][..|o.value|] == o.value && b[4..][|o.value| + |o.padding|..] == rest;
    assert b[4..4 + |o.value|] == b[4..][..|o.value|];
    assert b[4 + |o.value| + |o.padding|..] == b[4..][|o.value| + |o.padding|..];
  }

  /** One option in front of the others. */
  function OneOption(e: Endian, o: Opt, i: Interface): Result<Interface> {
    if o.code == 9 then
      if |o.value| != 1 || Ticks(o.value[0]) >= 0x1_0000_0000_0000_0000 then Err else Ok(i.(units := Ticks(o.value[0])))
    else if o.code == 14 then
      if |o.value| != 8 then Err else Ok(i.(offset := Signed64(e.At64(o.value, 0))))
    else Ok(i)
  }

  lemma OptionRead(e: Endian, o: Opt, rest: seq<u8>, i: Interface)
    requires o.Valid()
    ensures ReadOptions(OptBytes(e, o) + rest, e, i)
            == if OneOption(e, o, i).Err? then Err else ReadOptions(rest, e, OneOption(e, o, i).value)
  {
    hide OptBytes; hide Endian.At16; hide Endian.At64; hide Resolution; hide Ticks; hide Signed64;
    OptionAt(e, o, rest);
    FillsUp(|o.value|, |o.padding|);
    if |o.value| > 0 { ResolutionIs(o.value[0]); }
  }

  lemma FillsUp(n: nat, padding: nat)
    requires padding < 4 && (n + padding) % 4 == 0
    ensures (4 - n % 4) % 4 == padding
  {
  }

  lemma ResolutionIs(v: u8)
    ensures Resolution(v) == if Ticks(v) < TWO64 then Some(Ticks(v)) else None
  {
    hide Power;
  }

  lemma EndRead(e: Endian, tail: seq<u8>, i: Interface)
    requires Ends(e, tail)
    ensures ReadOptions(tail, e, i) == Ok(i)
  {
    hide Endian.At16; hide InOrder; hide Resolution; hide Signed64;
    if |tail| >= 4 {
      ZeroWord(e);
      assert tail[0..2] == tail[..4][0..2] && tail[2..4] == tail[..4][2..4];
      Number(e, tail, 0, 0);
      Number(e, tail, 2, 0);
    }
  }

  lemma ZeroWord(e: Endian)
    ensures InOrder(e, 0, 2) == [0, 0]
  {
    assert Le(0, 1) == [0] && Le(0, 2) == [0] + Le(0, 1);
    assert Turned([0, 0]) == [0, 0];
  }

  /** The options before an end, in any byte order: what they configure, or an error. */
  lemma {:induction false} OptionsRead(e: Endian, os: seq<Opt>, tail: seq<u8>, i: Interface)
    requires (forall o :: o in os ==> o.Valid()) && Ends(e, tail)
    ensures var r := ReadOptions(OptsBytes(e, os) + tail, e, i);
            && (r.Ok? <==> Acceptable(os))
            && (r.Ok? ==> Configured(e, os, i, r.value))
  {
    hide OptBytes; hide ReadOptions; hide Configured; hide Ends; hide Power; hide Acceptable;
    if os == [] {
      assert OptsBytes(e, os) + tail == tail;
      EndRead(e, tail, i);
      NoOptions(e, i);
    } else {
      var o, more := os[0], OptsBytes(e, os[1..]) + tail;
      Associate(OptBytes(e, o), OptsBytes(e, os[1..]), tail);
      OptionRead(e, o, more, i);
      FirstAcceptable(e, os, i);
      if OneOption(e, o, i).Ok? {
        OptionsRead(e, os[1..], tail, OneOption(e, o, i).value);
        var r := ReadOptions(more, e, OneOption(e, o, i).value);
        if r.Ok? { FirstConfigures(e, os, i, r.value); }
      }
    }
  }

  /** An end marker with a value, or an option longer than what is left. */
  predicate Broken(e: Endian, tail: seq<u8>) {
    && |tail| >= 4
    && ((e.At16(tail, 0) == 0 && e.At16(tail, 2) > 0) || 4 + e.At16(tail, 2) > |tail|)
  }

  /** Such an end is an error, whatever acceptable options come first. */
  lemma {:induction false} OptionsBroken(e: Endian, os: seq<Opt>, tail: seq<u8>, i: Interface)
    requires (forall o :: o in os ==> o.Valid()) && Broken(e, tail)
    ensures ReadOptions(OptsBytes(e, os) + tail, e, i).Err?
  {
    hide OptBytes; hide Power; hide Endian.At16; hide Resolution; hide Signed64;
    if os == [] {
      assert OptsBytes(e, os) + tail == tail;
    } else {
      var o, more := os[0], OptsBytes(e, os[1..]) + tail;
      Associate(OptBytes(e, o), OptsBytes(e, os[1..]), tail);
      hide ReadOptions;
      OptionRead(e, o, more, i);
      if OneOption(e, o, i).Ok? { OptionsBroken(e, os[1..], tail, OneOption(e, o, i).value); }
    }
  }

  lemma NoOptions(e: Endian, i: Interface)
    ensures Acceptable([]) && Configured(e, [], i, i)
  {
  }

  lemma FirstAcceptable(e: Endian, os: seq<Opt>, i: Interface)
    requires os != []
    ensures Acceptable(os) <==> OneOption(e, os[0], i).Ok? && Acceptable(os[1..])
  {
    hide Power; hide Endian.At64; hide Signed64;
    assert os == [os[0]] + os[1..];
  }

  lemma FirstConfigures(e: Endian, os: seq<Opt>, i: Interface, r: Interface)
    requires os != [] && OneOption(e, os[0], i).Ok? && Configured(e, os[1..], OneOption(e, os[0], i).value, r)
    ensures Configured(e, os, i, r)
  {
    hide Power; hide Endian.At64; hide Signed64; hide Signs; hide InOrder;
    var o, rest, first := os[0], os[1..], OneOption(e, os[0], i).value;
    LastInRest(os, 9);
    LastInRest(os, 14);
    if o.code == 14 { SignedValue(e, o.value); }
    assert forall x :: x in rest ==> x in os;
    assert (forall x :: x in rest ==> x.code != 9) && o.code != 9 ==> forall x :: x in os ==> x.code != 9;
  }

  /** The last option of a code is the rest's, unless only the first has it. */
  lemma LastInRest(os: seq<Opt>, code: u16)
    requires os != []
    ensures forall k: nat :: LastWith(os, code, k) ==>
                               if k == 0 then os[0].code == code && forall x :: x in os[1..] ==> x.code != code
                               else LastWith(os[1..], code, k - 1) && os[k] == os[1..][k - 1]
  {
    var rest := os[1..];
    forall k: nat | LastWith(os, code, k)
      ensures if k == 0 then os[0].code == code && forall x :: x in rest ==> x.code != code
              else LastWith(rest, code, k - 1) && os[k] == rest[k - 1]
    {
      if k == 0 {
        forall x | x in rest
          ensures x.code != code
        {
          var j :| 0 <= j < |rest| && rest[j] == x;
          assert os[j + 1] == x;
        }
      } else {
        forall j | k - 1 < j < |rest|
          ensures rest[j].code != code
        {
          assert os[j + 1] == rest[j];
        }
      }
    }
  }

  // ----- blocks -----

  function BlockIn(e: Endian, kind: u32, body: seq<u8>): (b: seq<u8>)
    requires |body| + 12 < TWO32
    ensures |b| == |body| + 12
  {
    PackedSize(e, kind, |body| + 12);
    PackIn(e, B4(kind, B4(|body| + 12, End))) + (body + InOrder(e, |body| + 12, 4))
  }

  const SECTION: u32 := 0x0a0d0d0a

  lemma BlockAt(e: Endian, kind: u32, body: seq<u8>, rest: seq<u8>)
    requires |body| + 12 < TWO32
    ensures var size, b, input := |body| + 12, BlockIn(e, kind, body), BlockIn(e, kind, body) + rest;
            && |b| == size && e.At32(input, 0) == kind && e.At32(input, 4) == size && e.At32(input, size - 4) == size
            && input[..size] == b && input[size..] == rest && b[8..size - 4] == body
            && input[..4] == b[..4] == InOrder(e, kind, 4)
  {
    hide Endian.At32; hide InOrder;
    var size, f, last := |body| + 12, B4(kind, B4(|body| + 12, End)), InOrder(e, |body| + 12, 4);
    var b := BlockIn(e, kind, body);
    var input := b + rest;
    Associate(PackIn(e, f), body + last, rest);
    assert input[0..] == input;
    UnpackIn(e, input, 0, f, (body + last) + rest);
    assert ReadsIn(e, input, 4, f.rest, (body + last) + rest);
    assert ReadsIn(e, input, 8, End, (body + last) + rest);
    PackedSize(e, kind, size);
    assert PackIn(e, f)[..4] == InOrder(e, kind, 4);
    assert b[..4] == PackIn(e, f)[..4] && input[..4] == b[..4];
    Assocs(PackIn(e, f), body, last, rest);
    Number(e, input, size - 4, size);
  }

  lemma Assocs<T>(a: seq<T>, b: seq<T>, c: seq<T>, d: seq<T>)
    ensures var w := (a + (b + c)) + d;
            && w[..|a| + |b| + |c|] == a + (b + c) && w[|a| + |b| + |c|..] == d
            && (a + (b + c))[|a|..|a| + |b|] == b && (a + (b + c))[|a| + |b|..] == c
            && w[|a| + |b|..|a| + |b| + |c|] == c
  {
  }

  lemma PackedSize(e: Endian, kind: u32, size: u32)
    ensures var p := PackIn(e, B4(kind, B4(size, End))); |p| == 8 && p[..4] == InOrder(e, kind, 4)
  {
    hide InOrder;
    assert PackIn(e, B4(size, End)) == InOrder(e, size, 4) + [];
  }

  /** The section marker reads the same in both byte orders, and no other block kind begins like it. */
  lemma Marker(e: Endian, kind: u32)
    ensures InOrder(e, kind, 4) == [10, 13, 13, 10] <==> kind == SECTION
  {
    Pow256Values();
    Wire.SectionWord();
    LeRoundTrip(kind, 4);
    LeRoundTrip(0x0a0d0d0a, 4);
    assert Turned([10, 13, 13, 10]) == [10, 13, 13, 10];
    TurnedTwice(Le(kind, 4));
  }

  /** A whole block of a known size is taken whole, in its own byte order. */
  lemma BlockTaken(e: Endian, kind: u32, body: seq<u8>, rest: seq<u8>, least: nat)
    requires |body| + 12 < TWO32 && |body| % 4 == 0 && |body| + 12 >= least >= 12
    ensures TakeBlock(BlockIn(e, kind, body) + rest, e, least) == Ok(BlockIn(e, kind, body))
  {
    hide Endian.At32; hide BlockIn;
    BlockAt(e, kind, body, rest);
  }

  /** Nothing but a whole block is ever taken. */
  lemma TakenIsBlock(e: Endian, input: seq<u8>, least: nat)
    requires |input| >= 8 && least >= 12 && TakeBlock(input, e, least).Ok?
    ensures var b := TakeBlock(input, e, least).value;
            && least <= |b| < TWO32 && |b| % 4 == 0
            && b == BlockIn(e, e.At32(input, 0), b[8..|b| - 4])
  {
    hide Endian.At32; hide InOrder;
    var b := TakeBlock(input, e, least).value;
    WordIn(e, input, 0); WordIn(e, input, 4); WordIn(e, input, |b| - 4);
    assert b == input[..|b|];
    Split(b);
    assert b[0..4] == input[0..4] && b[4..8] == input[4..8] && b[|b| - 4..] == input[|b| - 4..|b|];
    assert PackIn(e, B4(|b|, End)) == InOrder(e, |b|, 4) + [];
  }

  lemma WordIn(e: Endian, b: seq<u8>, at: nat)
    requires at + 4 <= |b|
    ensures b[at..at + 4] == InOrder(e, e.At32(b, at), 4)
  {
    var w := b[at..at + 4];
    WordOf(e, w);
    assert w[0..4] == w;
  }

  lemma Split(b: seq<u8>)
    requires |b| >= 12
    ensures b == (b[0..4] + b[4..8]) + (b[8..|b| - 4] + b[|b| - 4..])
  {
  }

  // ----- what the reader makes of a block -----

  /** Outside a section only a section header is read. */
  lemma NothingBeforeSection(s: State)
    requires ValidState(s) && s.input != [] && !s.section
    ensures |s.input| < 4 || s.input[..4] != [10, 13, 13, 10] ==> ReadBlock(s).Err?
  {
    hide TakeBlock;
  }

  lemma BodyBlockRead(s: State, kind: u32, body: seq<u8>, rest: seq<u8>)
    requires ValidState(s) && s.section && kind != SECTION && |body| + 12 < TWO32 && |body| % 4 == 0
    requires s.input == BlockIn(s.endian, kind, body) + rest
    ensures s.input != []
    ensures var t := ReadBodyBlock(s, kind, BlockIn(s.endian, kind, body));
            |BlockIn(s.endian, kind, body)| == |body| + 12
            && ReadBlock(s) == if t.Err? then Err else Ok((t.value.0.(input := rest), t.value.1))
  {
    hide Endian.At32; hide BlockIn; hide InOrder; hide ReadBodyBlock; hide TakeBlock;
    BlockAt(s.endian, kind, body, rest);
    Marker(s.endian, kind);
    assert s.input[..4] == InOrder(s.endian, kind, 4);
    BlockTaken(s.endian, kind, body, rest, 12);
  }

  /** Blocks of unknown kinds are skipped; the two obsolete packet kinds are errors. */
  lemma OtherBlockRead(s: State, kind: u32, body: seq<u8>, rest: seq<u8>)
    requires ValidState(s) && s.section && kind != SECTION && |body| + 12 < TWO32 && |body| % 4 == 0
    requires s.input == BlockIn(s.endian, kind, body) + rest && kind != 1 && kind != 6
    ensures s.input != [] && ReadBlock(s) == if kind == 2 || kind == 3 then Err else Ok((s.(input := rest), None))
  {
    hide BlockIn; hide ReadBlock;
    BodyBlockRead(s, kind, body, rest);
  }

  // ----- interface blocks -----

  function InterfaceBody(e: Endian, linktype: u16, reserved: u16, snap: u32, options: seq<u8>): (b: seq<u8>)
    ensures |b| == 8 + |options|
  {
    var f := B2(linktype, B2(reserved, B4(snap, End)));
    assert Size(f.rest.rest.rest) == 0;
    assert Size(f.rest.rest) == 4;
    assert Size(f.rest) == 6;
    PackIn(e, f) + options
  }

  lemma InterfaceAt(e: Endian, linktype: u16, reserved: u16, snap: u32, options: seq<u8>)
    requires |options| + 20 < TWO32
    ensures var body := InterfaceBody(e, linktype, reserved, snap, options);
            var b := BlockIn(e, 1, body);
            && |body| == 8 + |options| && |b| == 20 + |options|
            && e.At16(b, 8) == linktype && b[16..|b| - 4] == options
  {
    hide Endian.At16; hide Endian.At32; hide InOrder; hide BlockIn; hide PackIn;
    var f := B2(linktype, B2(reserved, B4(snap, End)));
    var body := InterfaceBody(e, linktype, reserved, snap, options);
    assert body[0..] == body;
    UnpackIn(e, body, 0, f, options);
    assert ReadsIn(e, body, 2, f.rest, options) && ReadsIn(e, body, 4, f.rest.rest, options);
    assert ReadsIn(e, body, 8, End, options);
    var b := BlockIn(e, 1, body);
    BlockAt(e, 1, body, []);
    assert b[8..|b| - 4] == body;
    Shifted(e, b, body);
    assert b[8..|b| - 4][8..] == b[16..|b| - 4];
  }

  lemma Shifted(e: Endian, b: seq<u8>, body: seq<u8>)
    requires |b| >= 12 && b[8..|b| - 4] == body && |body| >= 8
    ensures e.At16(b, 8) == e.At16(body, 0)
  {
    assert b[8..10] == body[0..2];
  }

  /**
   An interface block adds the next interface, with the link type given and the clock its options configure,
   microseconds without any; unacceptable options are an error, and so is an interface too many.
   */
  lemma InterfaceBlockRead(s: State, linktype: u16, reserved: u16, snap: u32, os: seq<Opt>, tail: seq<u8>,
          rest: seq<u8>) returns (i: Interface)
    requires ValidState(s) && s.section && (forall o :: o in os ==> o.Valid()) && Ends(s.endian, tail)
    requires var n := |OptsBytes(s.endian, os) + tail|; n % 4 == 0 && n + 20 < TWO32
    requires s.input == BlockIn(s.endian, 1, InterfaceBody(s.endian, linktype, reserved, snap,
                                                           OptsBytes(s.endian, os) + tail)) + rest
    ensures s.input != []
    ensures ReadBlock(s).Ok? <==> Acceptable(os) && s.nextSourceId < 0xffff_ffff_ffff_ffff
    ensures ReadBlock(s).Ok? ==>
              && ReadBlock(s) == Ok((s.(input := rest, interfaces := s.interfaces + [i],
                                        nextSourceId := s.nextSourceId + 1), None))
              && Configured(s.endian, os, Interface(s.nextSourceId, linktype, 1_000_000, 0), i)
  {
    hide BlockIn; hide ReadBlock; hide OptsBytes; hide Acceptable; hide Configured; hide Ends; hide ReadOptions;
    hide Endian.At16; hide InterfaceBody;
    var options := OptsBytes(s.endian, os) + tail;
    var body := InterfaceBody(s.endian, linktype, reserved, snap, options);
    InterfaceAt(s.endian, linktype, reserved, snap, options);
    BodyBlockRead(s, 1, body, rest);
    var start := Interface(0, linktype, 1_000_000, 0);
    OptionsRead(s.endian, os, tail, start);
    var read := ReadOptions(options, s.endian, start);
    i := start;
    if read.Ok? && s.nextSourceId < TWO64 {
      i := read.value.(sourceId := s.nextSourceId);
      Renumbered(s.endian, os, start, read.value, s.nextSourceId);
    }
  }

  lemma Renumbered(e: Endian, os: seq<Opt>, i: Interface, r: Interface, id: nat)
    requires Configured(e, os, i, r) && id < TWO64
    ensures Configured(e, os, i.(sourceId := id), r.(sourceId := id))
  {
  }

  // ----- section headers -----

  function SectionBody(e: Endian, major: u16, minor: u16, length: u64, options: seq<u8>): (b: seq<u8>)
    ensures |b| == 16 + |options|
  {
    var f := B4(0x1a2b3c4d, B2(major, B2(minor, B8(length, End))));
    assert Size(f.rest.rest.rest.rest) == 0;
    assert Size(f.rest.rest.rest) == 8;
    assert Size(f.rest.rest) == 10;
    assert Size(f.rest) == 12;
    PackIn(e, f) + options
  }

  /** The byte-order magic is read back as the order it was written in. */
  lemma MagicOf(e: Endian)
    ensures Magic(InOrder(e, 0x1a2b3c4d, 4)) == Some(e)
  {
    MagicBytes();
    hide Le;
    assert Turned([77, 60, 43, 26]) == [26, 43, 60, 77];
  }

  lemma MagicBytes()
    ensures Le(0x1a2b3c4d, 4) == [77, 60, 43, 26]
  {
    var v: nat := 0x1a2b3c4d;
    assert Le(0x1a, 1) == [0x1a];
    assert Le(v / 0x1_0000, 2) == [0x2b] + Le(0x1a, 1);
    assert Le(v / 0x100, 3) == [0x3c] + Le(v / 0x1_0000, 2);
  }

  lemma SectionAt(e: Endian, major: u16, minor: u16, length: u64, options: seq<u8>)
    requires |options| + 28 < TWO32
    ensures var b := BlockIn(e, SECTION, SectionBody(e, major, minor, length, options));
            && b[8..12] == InOrder(e, 0x1a2b3c4d, 4) && e.At16(b, 12) == major
  {
    hide Endian.At16; hide Endian.At32; hide Endian.At64; hide InOrder; hide BlockIn; hide PackIn;
    var f := B4(0x1a2b3c4d, B2(major, B2(minor, B8(length, End))));
    var body := SectionBody(e, major, minor, length, options);
    assert body[0..] == body;
    UnpackIn(e, body, 0, f, options);
    assert ReadsIn(e, body, 4, f.rest, options);
    WordIn(e, body, 0);
    var b := BlockIn(e, SECTION, body);
    BlockAt(e, SECTION, body, []);
    assert b[8..|b| - 4] == body;
    InsideBody(e, b, body);
  }

  lemma Inner(b: seq<u8>, i: nat, j: nat)
    requires i <= j && 8 + j <= |b| - 4
    ensures b[8..|b| - 4][i..j] == b[8 + i..8 + j]
  {
    SliceOfSlice(b, 8, |b| - 12, i, j - i);
  }

  lemma InsideBody(e: Endian, b: seq<u8>, body: seq<u8>)
    requires |b| >= 12 && b[8..|b| - 4] == body && |body| >= 8
    ensures e.At16(b, 12) == e.At16(body, 4) && b[8..12] == body[0..4]
  {
    Inner(b, 4, 6);
    Inner(b, 0, 4);
  }

  /**
   A section header of either byte order starts afresh in that order: no interfaces, no unmatched submissions, but
   source ids go on; a major version other than 1 is an error.
   */
  lemma SectionBlockRead(s: State, e: Endian, major: u16, minor: u16, length: u64, options: seq<u8>, rest: seq<u8>)
    requires ValidState(s) && |options| % 4 == 0 && |options| + 28 < TWO32
    requires s.input == BlockIn(e, SECTION, SectionBody(e, major, minor, length, options)) + rest
    ensures s.input != []
    ensures ReadBlock(s)
            == if major != 1 then Err
               else Ok((s.(input := rest, endian := e, section := true, interfaces := [], requested := map[]), None))
  {
    hide BlockIn; hide InOrder; hide Endian.At16; hide Endian.At32; hide TakeBlock; hide SectionBody; hide Magic;
    var body := SectionBody(e, major, minor, length, options);
    BlockAt(e, SECTION, body, rest);
    Marker(e, SECTION);
    SectionAt(e, major, minor, length, options);
    MagicOf(e);
    BlockTaken(e, SECTION, body, rest, 28);
    var b := BlockIn(e, SECTION, body);
    assert s.input[8..12] == b[8..12] by { assert s.input[..|b|] == b; }
  }

  // ----- packet blocks -----

  function PacketBody(e: Endian, index: u32, ticks: u64, captured: u32, original: u32, data: seq<u8>): (b: seq<u8>)
    ensures |b| == 20 + |data|
  {
    HalvesFit(ticks);
    var f := B4(index, B4(ticks / TWO32, B4(ticks % TWO32, B4(captured, B4(original, End)))));
    assert Size(f.rest.rest.rest.rest.rest) == 0;
    assert Size(f.rest.rest.rest.rest) == 4;
    assert Size(f.rest.rest.rest) == 8;
    assert Size(f.rest.rest) == 12;
    assert Size(f.rest) == 16;
    PackIn(e, f) + data
  }

  lemma HalvesFit(ticks: u64)
    ensures ticks / TWO32 < TWO32 && ticks / TWO32 * TWO32 + ticks % TWO32 == ticks
  {
  }

  lemma PacketAt(e: Endian, index: u32, ticks: u64, captured: u32, original: u32, data: seq<u8>)
    requires |data| + 32 < TWO32
    ensures var b := BlockIn(e, 6, PacketBody(e, index, ticks, captured, original, data));
            && |b| == 32 + |data|
            && e.At32(b, 8) == index && e.At32(b, 12) * TWO32 + e.At32(b, 16) == ticks
            && e.At32(b, 20) == captured && e.At32(b, 24) == original && b[28..28 + |data|] == data
  {
    hide Endian.At32; hide InOrder; hide BlockIn; hide PackIn;
    HalvesFit(ticks);
    var f := B4(index, B4(ticks / TWO32, B4(ticks % TWO32, B4(captured, B4(original, End)))));
    var body := PacketBody(e, index, ticks, captured, original, data);
    assert body[0..] == body;
    UnpackIn(e, body, 0, f, data);
    f := f.rest; assert ReadsIn(e, body, 4, f, data);
    f := f.rest; assert ReadsIn(e, body, 8, f, data);
    f := f.rest; assert ReadsIn(e, body, 12, f, data);
    f := f.rest; assert ReadsIn(e, body, 16, f, data);
    f := f.rest; assert ReadsIn(e, body, 20, f, data);
    var b := BlockIn(e, 6, body);
    BlockAt(e, 6, body, []);
    assert b[8..|b| - 4] == body;
    WordsInside(e, b, body);
    assert b[8..|b| - 4][20..20 + |data|] == b[28..28 + |data|];
    assert body[20..20 + |data|] == body[20..];
  }

  lemma WordsInside(e: Endian, b: seq<u8>, body: seq<u8>)
    requires |b| >= 12 && b[8..|b| - 4] == body && |body| >= 20
    ensures e.At32(b, 8) == e.At32(body, 0) && e.At32(b, 12) == e.At32(body, 4) && e.At32(b, 16) == e.At32(body, 8)
    ensures e.At32(b, 20) == e.At32(body, 12) && e.At32(b, 24) == e.At32(body, 16)
  {
    Inner(b, 0, 4); Inner(b, 4, 8); Inner(b, 8, 12); Inner(b, 12, 16); Inner(b, 16, 20);
  }

  /** The time of a packet: whole nanoseconds of its ticks, and the interface's offset in seconds. */
  function TimeOf(ticks: u64, i: Interface): int
    requires i.units > 0
  {
    ticks * 1_000_000_000 / i.units + i.offset * 1_000_000_000
  }

  /** What follows the packet's lengths: the bytes captured, then padding and options. */
  lemma PacketBlockRead(s: State, index: u32, ticks: u64, captured: u32, original: u32, data: seq<u8>, rest: seq<u8>)
    requires ValidState(s) && s.section && |data| % 4 == 0 && |data| + 32 < TWO32
    requires s.input == BlockIn(s.endian, 6, PacketBody(s.endian, index, ticks, captured, original, data)) + rest
    ensures s.input != []
    ensures ReadBlock(s)
            == if index >= |s.interfaces| || s.interfaces[index].linktype != 220 then Err else
               var i := s.interfaces[index];
               assert i in s.interfaces;
               var t := TimeOf(ticks, i);
               if t < 0 || t >= TWO64 || captured > |data| then Err
               else if captured < 64 || captured < original then
                 Ok((s.(input := rest, incomplete := s.incomplete + 1), None))
               else if captured > original then Err
               else
                 var u := ReadUsb(s, i.sourceId, t, data[..captured]);
                 if u.Err? then Err else Ok((u.value.0.(input := rest), u.value.1))
  {
    hide Endian.At32; hide BlockIn; hide ReadBlock; hide ReadUsb; hide PacketBody;
    var body := PacketBody(s.endian, index, ticks, captured, original, data);
    PacketAt(s.endian, index, ticks, captured, original, data);
    BodyBlockRead(s, 6, body, rest);
    var b := BlockIn(s.endian, 6, body);
    PaddedFits(captured, |data|);
    if captured <= |data| { assert b[28..28 + captured] == b[28..28 + |data|][..captured]; }
  }

  lemma PaddedFits(n: nat, room: nat)
    requires room % 4 == 0
    ensures n + (4 - n % 4) % 4 > room <==> n > room
  {
  }

  // ----- USB packets -----

  /** The pseudoheader's fields; `middle` holds ISO totals or the setup packet. */
  datatype UsbHeader = UsbHeader(
    urbId: u64, eventType: u8, transferType: u8, endpoint: u8, device: u8, bus: u16, setupFlag: u8, dataFlag: u8,
    seconds: u64, micros: u32, status: i32, length: u32, dataLen: u32, middle: Setup,
    interval: i32, startFrame: i32, flags: u32, isoCount: u32)

  function FrontFields(h: UsbHeader): Fields {
    B8(h.urbId, B1(h.eventType, B1(h.transferType, B1(h.endpoint, B1(h.device, B2(h.bus, B1(h.setupFlag,
    B1(h.dataFlag, B8(h.seconds, B4(h.micros, B4(Unsigned(h.status), B4(h.length, B4(h.dataLen, End)))))))))))))
  }

  function BackFields(h: UsbHeader): Fields {
    B4(Unsigned(h.interval), B4(Unsigned(h.startFrame), B4(h.flags, B4(h.isoCount, End))))
  }

  function HeaderIn(e: Endian, h: UsbHeader): seq<u8> {
    PackIn(e, FrontFields(h)) + (h.middle + PackIn(e, BackFields(h)))
  }

  lemma FrontAt(e: Endian, h: UsbHeader, b: seq<u8>, tail: seq<u8>)
    requires b == PackIn(e, FrontFields(h)) + tail
    ensures 40 <= |b| && b[40..] == tail
    ensures e.At64(b, 0) == h.urbId && b[8] == h.eventType && b[9] == h.transferType && b[10] == h.endpoint
    ensures b[11] == h.device && e.At16(b, 12) == h.bus && b[14] == h.setupFlag && b[15] == h.dataFlag
    ensures e.At32(b, 28) == Unsigned(h.status) && e.At32(b, 32) == h.length && e.At32(b, 36) == h.dataLen
  {
    hide Endian.At16; hide Endian.At32; hide Endian.At64; hide PackIn;
    var f := FrontFields(h);
    assert b[0..] == b;
    UnpackIn(e, b, 0, f, tail);
    f := f.rest; assert ReadsIn(e, b, 8, f, tail);
    f := f.rest; assert ReadsIn(e, b, 9, f, tail);
    f := f.rest; assert ReadsIn(e, b, 10, f, tail);
    f := f.rest; assert ReadsIn(e, b, 11, f, tail);
    f := f.rest; assert ReadsIn(e, b, 12, f, tail);
    f := f.rest; assert ReadsIn(e, b, 14, f, tail);
    f := f.rest; assert ReadsIn(e, b, 15, f, tail);
    f := f.rest; assert ReadsIn(e, b, 16, f, tail);
    f := f.rest; assert ReadsIn(e, b, 24, f, tail);
    f := f.rest; assert ReadsIn(e, b, 28, f, tail);
    f := f.rest; assert ReadsIn(e, b, 32, f, tail);
    f := f.rest; assert ReadsIn(e, b, 36, f, tail);
    f := f.rest; assert ReadsIn(e, b, 40, f, tail);
  }

  lemma BackAt(e: Endian, h: UsbHeader, b: seq<u8>, tail: seq<u8>)
    requires |b| >= 48 && b[48..] == PackIn(e, BackFields(h)) + tail
    ensures 64 <= |b| && b[64..] == tail
    ensures e.At32(b, 48) == Unsigned(h.interval) && e.At32(b, 52) == Unsigned(h.startFrame)
    ensures e.At32(b, 56) == h.flags && e.At32(b, 60) == h.isoCount
  {
    hide Endian.At32; hide PackIn;
    var f := BackFields(h);
    UnpackIn(e, b, 48, f, tail);
    f := f.rest; assert ReadsIn(e, b, 52, f, tail);
    f := f.rest; assert ReadsIn(e, b, 56, f, tail);
    f := f.rest; assert ReadsIn(e, b, 60, f, tail);
    f := f.rest; assert ReadsIn(e, b, 64, f, tail);
  }

  lemma HeaderAt(e: Endian, h: UsbHeader, b: seq<u8>, tail: seq<u8>)
    requires b == HeaderIn(e, h) + tail
    ensures 64 <= |b| && b[64..] == tail && b[..64] == HeaderIn(e, h) && b[40..48] == h.middle
    ensures e.At64(b, 0) == h.urbId && b[8] == h.eventType && b[9] == h.transferType && b[10] == h.endpoint
    ensures b[11] == h.device && e.At16(b, 12) == h.bus && b[14] == h.setupFlag && b[15] == h.dataFlag
    ensures e.At32(b, 28) == Unsigned(h.status) && e.At32(b, 32) == h.length && e.At32(b, 36) == h.dataLen
    ensures e.At32(b, 48) == Unsigned(h.interval) && e.At32(b, 52) == Unsigned(h.startFrame)
    ensures e.At32(b, 56) == h.flags && e.At32(b, 60) == h.isoCount
  {
    hide Endian.At16; hide Endian.At32; hide Endian.At64; hide PackIn;
    var front, back := PackIn(e, FrontFields(h)), PackIn(e, BackFields(h));
    assert b == front + (h.middle + (back + tail));
    FrontAt(e, h, b, h.middle + (back + tail));
    assert b[40..][8..] == b[48..];
    BackAt(e, h, b, tail);
    assert b[40..48] == b[40..][..8];
  }

  /** What the reader takes for metadata before lengths and pairing. */
  lemma BaseIs(e: Endian, h: UsbHeader, t: u64)
    ensures |HeaderIn(e, h)| == 64
    ensures BaseMeta(HeaderIn(e, h), e, t)
            == EventMeta(h.urbId, t, h.bus, h.device, h.endpoint, h.transferType, h.eventType,
                         if h.setupFlag == 0 then 1 else 0, if h.dataFlag == 0 then 1 else 0, h.status, 0, 0, 0,
                         h.interval, h.startFrame, h.flags, h.isoCount, 0, 0, 0, [0, 0, 0, 0, 0, 0, 0, 0])
  {
    hide Endian.At16; hide Endian.At32; hide Endian.At64; hide HeaderIn;
    var b := HeaderIn(e, h);
    assert b + [] == b;
    HeaderAt(e, h, b, []);
  }

  // ----- ISO descriptors -----

  /** A descriptor with its unused fourth word. */
  datatype Frame = Frame(d: IsoDescriptor, unused: u32)

  function FrameIn(e: Endian, f: Frame): seq<u8> {
    PackIn(e, B4(Unsigned(f.d.status), B4(f.d.offset, B4(f.d.length, B4(f.unused, End)))))
  }

  function FramesIn(e: Endian, fs: seq<Frame>): seq<u8> {
    if fs == [] then [] else FrameIn(e, fs[0]) + FramesIn(e, fs[1..])
  }

  function Bare(fs: seq<Frame>): (r: seq<IsoDescriptor>)
    ensures |r| == |fs| && forall i :: 0 <= i < |fs| ==> r[i] == fs[i].d
  {
    seq(|fs|, i requires 0 <= i < |fs| => fs[i].d)
  }

  lemma FrameAt(e: Endian, f: Frame)
    ensures |FrameIn(e, f)| == 16 && ReadDescriptor(FrameIn(e, f), e) == f.d
  {
    hide Endian.At32; hide PackIn;
    var fields, b := B4(Unsigned(f.d.status), B4(f.d.offset, B4(f.d.length, B4(f.unused, End)))), FrameIn(e, f);
    assert b[0..] == PackIn(e, fields) + [];
    UnpackIn(e, b, 0, fields, []);
    assert ReadsIn(e, b, 4, fields.rest, []);
    assert ReadsIn(e, b, 8, fields.rest.rest, []);
    assert ReadsIn(e, b, 12, fields.rest.rest.rest, []);
    assert ReadsIn(e, b, 16, End, []);
  }

  lemma {:induction false} FramesSize(e: Endian, fs: seq<Frame>)
    ensures |FramesIn(e, fs)| == 16 * |fs|
  {
    if fs != [] {
      FrameAt(e, fs[0]);
      FramesSize(e, fs[1..]);
    }
  }

  /** A descriptor the reader refuses: beyond 32 bits, beyond a known buffer, or, with data, beyond the payload. */
  predicate Outside(d: IsoDescriptor, known: Option<u32>, data: bool, room: nat) {
    || d.offset + d.length >= 0x1_0000_0000 || (known.Some? && d.offset + d.length > known.value)
    || (data && d.length != 0 && d.offset + d.length > room)
  }

  predicate Misplaced(d: IsoDescriptor, m: EventMeta, known: bool) {
    Outside(d, if known then Some(m.requestedLen) else None, m.hasData != 0, m.payloadLen)
  }

  lemma {:induction false} FramesRead(e: Endian, fs: seq<Frame>, m: EventMeta, known: bool)
    ensures |FramesIn(e, fs)| == 16 * |fs|
    ensures ReadDescriptors(FramesIn(e, fs), |fs|, e, m, known)
            == if exists d :: d in Bare(fs) && Misplaced(d, m, known) then Err else Ok(Bare(fs))
  {
    hide FrameIn; hide ReadDescriptor; hide Misplaced;
    FramesSize(e, fs);
    if fs != [] {
      FrameAt(e, fs[0]);
      FramesSize(e, fs[1..]);
      var b, first, rest := FramesIn(e, fs), fs[0].d, Bare(fs[1..]);
      assert b[..16] == FrameIn(e, fs[0]) && b[16..] == FramesIn(e, fs[1..]);
      FramesRead(e, fs[1..], m, known);
      assert Bare(fs) == [first] + rest;
      FirstRead(b, |fs|, e, m, known, first);
      assert forall d :: d in Bare(fs) <==> d == first || d in rest;
    }
  }

  lemma FirstRead(b: seq<u8>, count: nat, e: Endian, m: EventMeta, known: bool, d: IsoDescriptor)
    requires |b| == 16 * count && count > 0 && ReadDescriptor(b[..16], e) == d
    ensures ReadDescriptors(b, count, e, m, known)
            == if Misplaced(d, m, known) || ReadDescriptors(b[16..], count - 1, e, m, known).Err? then Err
               else Ok([d] + ReadDescriptors(b[16..], count - 1, e, m, known).value)
  {
    hide ReadDescriptor;
  }

  // ----- what the reader makes of a USB packet -----

  /** A packet: pseudoheader, descriptors and payload. */
  datatype UsbPacket = UsbPacket(header: UsbHeader, frames: seq<Frame>, payload: seq<u8>)

  function PacketIn(e: Endian, p: UsbPacket): seq<u8> {
    HeaderIn(e, p.header) + (FramesIn(e, p.frames) + p.payload)
  }

  /** The requested length, if it is known: a submission's own, or what the table remembers for a completion. */
  function KnownLength(s: State, source: u64, h: UsbHeader): Option<u32> {
    if h.eventType == 83 then Some(h.length)
    else if (source, h.urbId) in s.requested then Some(s.requested[(source, h.urbId)])
    else None
  }

  /** Packets refused before their descriptors are read. */
  predicate IllFormed(s: State, p: UsbPacket) {
    var h := p.header;
    || h.eventType !in {83, 67, 69} || h.transferType > 3 || h.device > 127
    || h.dataLen != 16 * |p.frames| + |p.payload|
    || (h.transferType != 0 && p.frames != [])
    || (h.dataFlag != 0 && p.payload != [])
    || (h.eventType == 83 && |s.requested| >= 65536)
  }

  /** Packets refused for their descriptors. */
  predicate BadFrames(s: State, source: u64, p: UsbPacket) {
    var h, known := p.header, KnownLength(s, source, p.header);
    h.transferType == 0
    && (s.endian.At32(h.middle, 4) != |p.frames|
        || exists d :: d in Bare(p.frames) && Outside(d, known, h.dataFlag == 0, |p.payload|))
  }

  /** Packets that are errors. */
  predicate Malformed(s: State, source: u64, p: UsbPacket) {
    IllFormed(s, p) || BadFrames(s, source, p)
  }

  /**
   Packets whose data was lost: an OUT submission or IN completion that should carry data and has none, or data of a
   length other than the transfer's.
   */
  predicate Lost(p: UsbPacket) {
    var h := p.header;
    var carries := (h.eventType == 83 && h.endpoint < 128) || (h.eventType == 67 && h.endpoint >= 128);
    var expected := carries && if h.transferType == 0 then exists d :: d in Bare(p.frames) && d.length != 0
                               else h.length != 0;
    (expected && h.dataFlag != 0) || (h.transferType != 0 && h.dataFlag == 0 && |p.payload| != h.length)
  }

  /** The metadata once lengths are known. */
  function MetaIn(s: State, source: u64, t: u64, p: UsbPacket): EventMeta
    requires |p.payload| < TWO32
  {
    var h, known := p.header, KnownLength(s, source, p.header);
    EventMeta(h.urbId, t, h.bus, h.device, h.endpoint, h.transferType, h.eventType,
              if h.setupFlag == 0 then 1 else 0, if h.dataFlag == 0 then 1 else 0, h.status,
              if known.Some? then known.value else 0, if h.eventType == 83 then 0 else h.length, |p.payload|,
              h.interval, h.startFrame, h.flags, h.isoCount, 0, 0, 0, [0, 0, 0, 0, 0, 0, 0, 0])
  }

  function UsbEvent(s: State, source: u64, t: u64, p: UsbPacket): Event
    requires |p.payload| < TWO32
  {
    var h, iso, m := p.header, p.header.transferType == 0, MetaIn(s, source, t, p);
    var full := if iso then m.(errorCount := Signed(s.endian.At32(h.middle, 0)))
                else if h.setupFlag == 0 then m.(setup := h.middle) else m;
    Event(source, full, if iso then Bare(p.frames) else [], p.payload, false, KnownLength(s, source, h).Some?)
  }

  /** The table after the packet: a submission is remembered until the next packet of its URB. */
  function After(s: State, source: u64, h: UsbHeader): map<Key, u32> {
    if h.eventType == 83 then s.requested[(source, h.urbId) := h.length] else s.requested - {(source, h.urbId)}
  }

  /** Every packet whose descriptor count is right is an error, a counted loss, or exactly this event. */
  lemma UsbPacketRead(s: State, source: u64, t: u64, p: UsbPacket)
    requires p.header.isoCount == |p.frames|
    ensures |PacketIn(s.endian, p)| >= 64
    ensures ReadUsb(s, source, t, PacketIn(s.endian, p))
            == if Malformed(s, source, p) then Err
               else if Lost(p) then
                 Ok((s.(requested := After(s, source, p.header), incomplete := s.incomplete + 1), None))
               else Ok((s.(requested := After(s, source, p.header)), Some(UsbEvent(s, source, t, p))))
  {
    hide PacketIn; hide ReadBody; hide ReadUsb; hide LostData; hide Lost; hide Bare; hide After; hide Outside;
    hide UsbEvent; hide Endian.At32;
    HeaderTaken(s, source, t, p);
    if !IllFormed(s, p) {
      BodyOf(s, source, t, p);
      LossOf(s, source, t, p);
    }
  }

  lemma SizedAs(m: EventMeta, dataLen: u32, frames: nat, payload: nat)
    requires m.isoCount == frames && dataLen == 16 * frames + payload
    ensures Sized(m, dataLen) == if (m.transferType != 0 && frames != 0) || (m.hasData == 0 && payload != 0) then Err
                                 else Ok(m.(payloadLen := payload))
  {
  }

  lemma HeaderTaken(s: State, source: u64, t: u64, p: UsbPacket)
    requires p.header.isoCount == |p.frames|
    ensures var packet, h := PacketIn(s.endian, p), p.header;
            && |packet| == 64 + 16 * |p.frames| + |p.payload|
            && (!IllFormed(s, p) ==> |p.payload| < TWO32)
            && ReadUsb(s, source, t, packet)
               == if IllFormed(s, p) then Err else
                  var known := KnownLength(s, source, h).Some?;
                  var event :- ReadBody(packet, s.endian, source, MetaIn(s, source, t, p), known);
                  Ok(Finish(s, After(s, source, h), event, h.length))
  {
    hide HeaderIn; hide FramesIn; hide Endian.At32; hide BaseMeta; hide ReadBody; hide LostData; hide Finish;
    hide Sized;
    var e, h, packet := s.endian, p.header, PacketIn(s.endian, p);
    HeaderAt(e, h, packet, FramesIn(e, p.frames) + p.payload);
    BaseIs(e, h, t);
    FramesSize(e, p.frames);
    if h.dataLen == 16 * |p.frames| + |p.payload| {
      SizedAs(BaseMeta(HeaderIn(e, h), e, t), h.dataLen, |p.frames|, |p.payload|);
    }
  }

  lemma BodyOf(s: State, source: u64, t: u64, p: UsbPacket)
    requires p.header.isoCount == |p.frames| && |p.payload| < TWO32
    requires p.header.transferType != 0 ==> p.frames == []
    ensures |PacketIn(s.endian, p)| == 64 + 16 * |p.frames| + |p.payload|
    ensures ReadBody(PacketIn(s.endian, p), s.endian, source, MetaIn(s, source, t, p),
                     KnownLength(s, source, p.header).Some?)
            == if BadFrames(s, source, p) then Err else Ok(UsbEvent(s, source, t, p))
  {
    hide HeaderIn; hide FramesIn; hide ReadDescriptors; hide Bare; hide Endian.At32;
    var e, h, packet := s.endian, p.header, PacketIn(s.endian, p);
    var m := MetaIn(s, source, t, p);
    HeaderAt(e, h, packet, FramesIn(e, p.frames) + p.payload);
    FramesSize(e, p.frames);
    BodySlices(packet, FramesIn(e, p.frames), p.payload);
    MiddleWords(e, packet, h.middle);
    FramesRead(e, p.frames, m, KnownLength(s, source, h).Some?);
  }

  lemma BodySlices(b: seq<u8>, frames: seq<u8>, payload: seq<u8>)
    requires |b| >= 64 && b[64..] == frames + payload
    ensures b[64..64 + |frames|] == frames && b[64 + |frames|..] == payload && |b| == 64 + |frames| + |payload|
  {
    assert b[64..][..|frames|] == b[64..64 + |frames|];
    assert b[64..][|frames|..] == b[64 + |frames|..];
  }

  lemma MiddleWords(e: Endian, b: seq<u8>, middle: seq<u8>)
    requires |b| >= 64 && b[40..48] == middle
    ensures e.At32(b, 40) == e.At32(middle, 0) && e.At32(b, 44) == e.At32(middle, 4)
  {
    SliceOfSlice(b, 40, 8, 0, 4);
    SliceOfSlice(b, 40, 8, 4, 4);
  }

  lemma LossOf(s: State, source: u64, t: u64, p: UsbPacket)
    requires |p.payload| < TWO32 && (p.header.transferType != 0 ==> p.frames == [])
    ensures var ev := UsbEvent(s, source, t, p); LostData(ev.meta, ev.iso, p.header.length) <==> Lost(p)
  {
    hide Endian.At32;
  }

  /** A packet too short for the descriptors it announces is an error. */
  lemma DescriptorsCutShort(s: State, source: u64, t: u64, packet: seq<u8>)
    requires |packet| >= 64 && 16 * s.endian.At32(packet, 60) > |packet| - 64
    ensures ReadUsb(s, source, t, packet).Err?
  {
    hide ReadBody; hide LostData; hide PseudoheaderOk;
    assert packet[..64][60..64] == packet[60..64];
    assert BaseMeta(packet[..64], s.endian, t).isoCount == s.endian.At32(packet, 60);
    hide BaseMeta; hide Endian.At32;
  }

  // ----- the clock of a file -----

  /** The part of a section up to its first packet: header, interface with options, and the packet's block. */
  datatype Start = Start(
    order: Endian, minor: u16, length: u64, reserved: u16, snap: u32, options: seq<Opt>, end: seq<u8>,
    ticks: u64, packet: UsbPacket, padding: seq<u8>)

  ghost predicate StartOk(f: Start) {
    && (forall o :: o in f.options ==> o.Valid()) && Ends(f.order, f.end)
    && (var n := |OptsBytes(f.order, f.options) + f.end|; n % 4 == 0 && n + 20 < TWO32)
    && f.packet.header.isoCount == |f.packet.frames|
    && (var n := |PacketIn(f.order, f.packet) + f.padding|; n % 4 == 0 && n + 32 < TWO32)
  }

  ghost function InterfacePart(f: Start): seq<u8>
    requires StartOk(f)
  {
    BlockIn(f.order, 1, InterfaceBody(f.order, 220, f.reserved, f.snap, OptsBytes(f.order, f.options) + f.end))
  }

  ghost function PacketPart(f: Start): seq<u8>
    requires StartOk(f)
  {
    var data := PacketIn(f.order, f.packet);
    BlockIn(f.order, 6, PacketBody(f.order, 0, f.ticks, |data|, |data|, data + f.padding))
  }

  ghost function StartBytes(f: Start, rest: seq<u8>): seq<u8>
    requires StartOk(f)
  {
    BlockIn(f.order, SECTION, SectionBody(f.order, 1, f.minor, f.length, []))
    + (InterfacePart(f) + (PacketPart(f) + rest))
  }

  /**
   The first packet of a file, in either byte order and with any interface options: an error, or an event whose time
   is that of its ticks on the clock the options configure. A packet that lost its data is passed over.
   */
  lemma FirstPacket(f: Start, rest: seq<u8>) returns (i: Interface)
    requires StartOk(f) && Acceptable(f.options)
    ensures Configured(f.order, f.options, Interface(0, 220, 1_000_000, 0), i) && i.units > 0
    ensures var s := State(rest, f.order, true, [i], 1, map[], 0);
            var t := TimeOf(f.ticks, i);
            NextEvent(Fresh(StartBytes(f, rest)))
            == if t < 0 || t >= TWO64 || Malformed(s, 0, f.packet) then Err
               else if Lost(f.packet) then
                 NextEvent(s.(requested := After(s, 0, f.packet.header), incomplete := 1))
               else Ok((s.(requested := After(s, 0, f.packet.header)), Some(UsbEvent(s, 0, t, f.packet))))
  {
    hide BlockIn; hide ReadBlock; hide OptsBytes; hide Acceptable; hide Configured; hide Ends; hide PacketIn;
    hide InterfaceBody; hide PacketBody; hide SectionBody; hide Malformed; hide Lost; hide UsbEvent; hide After;
    hide InterfacePart; hide PacketPart;
    var first := Fresh(StartBytes(f, rest));
    SectionBlockRead(first, f.order, 1, f.minor, f.length, [], InterfacePart(f) + (PacketPart(f) + rest));
    var begun := first.(input := InterfacePart(f) + (PacketPart(f) + rest), endian := f.order, section := true);
    i := InterfacePartRead(begun, f, PacketPart(f) + rest);
    var ready := State(PacketPart(f) + rest, f.order, true, [i], 1, map[], 0);
    PacketPartRead(ready, f, i, rest);
    UsbPacketSize(f.order, f.packet);
    InputIrrelevant(ready, rest, 0, TimeOf(f.ticks, i), f.packet);
    assert NextEvent(first) == NextEvent(begun) == NextEvent(ready);
  }

  lemma InputIrrelevant(s: State, rest: seq<u8>, source: u64, t: int, p: UsbPacket)
    ensures var u := s.(input := rest);
            && Malformed(u, source, p) == Malformed(s, source, p)
            && After(u, source, p.header) == After(s, source, p.header)
            && (0 <= t < TWO64 && |p.payload| < TWO32 ==> UsbEvent(u, source, t, p) == UsbEvent(s, source, t, p))
  {
  }

  lemma ConfiguredKeeps(e: Endian, os: seq<Opt>, i: Interface, r: Interface)
    requires Configured(e, os, i, r)
    ensures r.linktype == i.linktype && r.sourceId == i.sourceId
  {
  }

  lemma InterfacePartRead(s: State, f: Start, rest: seq<u8>) returns (i: Interface)
    requires StartOk(f) && Acceptable(f.options) && ValidState(s) && s.section && s.endian == f.order
    requires s.interfaces == [] && s.nextSourceId == 0 && s.input == InterfacePart(f) + rest
    ensures s.input != [] && ReadBlock(s) == Ok((s.(input := rest, interfaces := [i], nextSourceId := 1), None))
    ensures Configured(f.order, f.options, Interface(0, 220, 1_000_000, 0), i) && i.units > 0
    ensures i.linktype == 220 && i.sourceId == 0
  {
    hide BlockIn; hide ReadBlock; hide OptsBytes; hide Acceptable; hide Configured; hide Ends; hide PacketIn;
    hide InterfaceBody;
    i := InterfaceBlockRead(s, 220, f.reserved, f.snap, f.options, f.end, rest);
    ConfiguredKeeps(f.order, f.options, Interface(0, 220, 1_000_000, 0), i);
    assert [] + [i] == [i];
    assert ValidState(ReadBlock(s).value.0) && i in ReadBlock(s).value.0.interfaces;
  }

  lemma PacketPartRead(s: State, f: Start, i: Interface, rest: seq<u8>)
    requires StartOk(f) && s == State(PacketPart(f) + rest, f.order, true, [i], 1, map[], 0)
    requires i.units > 0 && i.linktype == 220 && i.sourceId == 0
    ensures ValidState(s) && s.input != []
    ensures var after := s.(input := rest, requested := After(s, 0, f.packet.header));
            var t := TimeOf(f.ticks, i);
            ReadBlock(s)
            == if t < 0 || t >= TWO64 || Malformed(s, 0, f.packet) then Err
               else if Lost(f.packet) then Ok((after.(incomplete := 1), None))
               else Ok((after, Some(UsbEvent(s, 0, t, f.packet))))
  {
    hide BlockIn; hide ReadBlock; hide OptsBytes; hide Ends; hide PacketIn; hide PacketBody; hide Malformed; hide Lost;
    hide UsbEvent; hide ReadUsb; hide After;
    var data := PacketIn(f.order, f.packet);
    PacketBlockRead(s, 0, f.ticks, |data|, |data|, data + f.padding, rest);
    assert (data + f.padding)[..|data|] == data;
    var t := TimeOf(f.ticks, i);
    if 0 <= t < TWO64 {
      UsbPacketRead(s, 0, t, f.packet);
    } else {
      UsbPacketSize(f.order, f.packet);
    }
  }

  lemma UsbPacketSize(e: Endian, p: UsbPacket)
    ensures |PacketIn(e, p)| >= 64 + |p.payload|
  {
    hide PackIn;
    HeaderAt(e, p.header, PacketIn(e, p), FramesIn(e, p.frames) + p.payload);
  }

  // ----- two common clocks -----

  /** With a resolution of nine decimal digits ticks are nanoseconds; without options they are microseconds. */
  lemma CommonClocks(e: Endian, ticks: u64, i: Interface)
    requires i.units > 0
    ensures Configured(e, [Opt(9, [9], [0, 0, 0])], Interface(0, 220, 1_000_000, 0), i) ==> TimeOf(ticks, i) == ticks
    ensures Configured(e, [], Interface(0, 220, 1_000_000, 0), i) ==> TimeOf(ticks, i) == 1000 * ticks
  {
    CommonResolutions();
    ResolutionIs(9);
    hide Power;
    assert LastWith([Opt(9, [9], [0, 0, 0])], 9, 0);
  }
}
