/**
 Streaming byte search: Knuth-Morris-Pratt over the captured ranges of an event, read in chunks.
 */
module Search {
  import opened Bytes
  import opened Records

  const BUFFER: nat := 16384

  // ----- what it means to occur -----

  predicate OccursAt(needle: seq<u8>, hay: seq<u8>, k: nat) {
    k + |needle| <= |hay| && hay[k..k + |needle|] == needle
  }

  predicate Occurs(needle: seq<u8>, hay: seq<u8>) {
    exists k: nat :: k <= |hay| && OccursAt(needle, hay, k)
  }

  /** The first `m` bytes of the needle end the text. */
  predicate Suffix(needle: seq<u8>, text: seq<u8>, m: nat) {
    m <= |needle| && m <= |text| && text[|text| - m..] == needle[..m]
  }

  ghost predicate Longest(needle: seq<u8>, text: seq<u8>, m: nat) {
    Suffix(needle, text, m) && forall j: nat :: m < j <= |needle| ==> !Suffix(needle, text, j)
  }

  /** Entry i is the longest proper border of the needle's first i + 1 bytes. */
  ghost predicate Table(needle: seq<u8>, prefix: seq<nat>, n: nat) {
    |prefix| == |needle| && n <= |needle| && forall i: nat :: i < n ==> Longest(needle, needle[1..i + 1], prefix[i])
  }

  // ----- borders -----

  lemma SuffixExtends(needle: seq<u8>, text: seq<u8>, c: u8, j: nat)
    requires j < |needle|
    ensures Suffix(needle, text + [c], j + 1) <==> Suffix(needle, text, j) && needle[j] == c
  {
    var t := text + [c];
    if j + 1 <= |t| {
      assert t[|t| - (j + 1)..] == text[|text| - j..] + [c];
      assert needle[..j + 1] == needle[..j] + [needle[j]];
      assert (text[|text| - j..] + [c])[..j] == text[|text| - j..];
      assert (needle[..j] + [needle[j]])[..j] == needle[..j];
      assert (text[|text| - j..] + [c])[j] == c;
      assert (needle[..j] + [needle[j]])[j] == needle[j];
    }
  }

  /** Below a known suffix match, the shorter ones are the borders of what was matched. */
  lemma ShorterMatches(needle: seq<u8>, text: seq<u8>, k: nat, j: nat)
    requires Suffix(needle, text, k) && j < k
    ensures Suffix(needle, text, j) <==> Suffix(needle, needle[1..k], j)
  {
    var tail := text[|text| - k..];
    assert tail[k - j..] == text[|text| - j..];
    assert needle[..k][k - j..] == needle[1..k][k - 1 - j..];
  }

  lemma OccursInLonger(needle: seq<u8>, text: seq<u8>, more: seq<u8>)
    requires Occurs(needle, text)
    ensures Occurs(needle, text + more)
  {
    var k: nat :| k <= |text| && OccursAt(needle, text, k);
    SliceOfPrefix(text, more, k, k + |needle|);
    assert OccursAt(needle, text + more, k);
  }

  lemma SliceOfPrefix(text: seq<u8>, more: seq<u8>, i: nat, j: nat)
    requires i <= j <= |text|
    ensures (text + more)[i..j] == text[i..j]
  {
  }

  lemma SuffixOccurs(needle: seq<u8>, text: seq<u8>)
    requires Suffix(needle, text, |needle|)
    ensures Occurs(needle, text)
  {
    var k := |text| - |needle|;
    assert text[k..k + |needle|] == text[k..];
    assert needle[..|needle|] == needle;
    assert OccursAt(needle, text, k);
  }

  /** A new byte can only complete an occurrence at the very end. */
  lemma OccursExtends(needle: seq<u8>, text: seq<u8>, c: u8)
    requires needle != []
    ensures Occurs(needle, text + [c]) <==> Occurs(needle, text) || Suffix(needle, text + [c], |needle|)
  {
    var t := text + [c];
    if Suffix(needle, t, |needle|) { SuffixOccurs(needle, t); }
    if Occurs(needle, text) { OccursInLonger(needle, text, [c]); }
    if Occurs(needle, t) {
      var k: nat :| k <= |t| && OccursAt(needle, t, k);
      OccursBeforeOrLast(needle, text, c, k);
    }
  }

  lemma OccursBeforeOrLast(needle: seq<u8>, text: seq<u8>, c: u8, k: nat)
    requires OccursAt(needle, text + [c], k)
    ensures OccursAt(needle, text, k) || Suffix(needle, text + [c], |needle|)
  {
    var t := text + [c];
    if k + |needle| <= |text| {
      SliceOfPrefix(text, [c], k, k + |needle|);
    } else {
      assert t[|t| - |needle|..] == t[k..k + |needle|];
      assert needle[..|needle|] == needle;
    }
  }

  /** No longer match than `k` can be extended by `c`. */
  ghost predicate NoneAbove(needle: seq<u8>, text: seq<u8>, c: u8, k: nat) {
    forall j: nat :: k < j < |needle| && Suffix(needle, text, j) ==> needle[j] != c
  }

  lemma FallBack(needle: seq<u8>, prefix: seq<nat>, text: seq<u8>, c: u8, k: nat)
    requires 0 < k < |needle| && Table(needle, prefix, k) && Suffix(needle, text, k)
    requires NoneAbove(needle, text, c, k) && needle[k] != c
    ensures prefix[k - 1] < k && Suffix(needle, text, prefix[k - 1]) && NoneAbove(needle, text, c, prefix[k - 1])
  {
    var b := prefix[k - 1];
    assert Longest(needle, needle[1..k - 1 + 1], b);
    ShorterMatches(needle, text, k, b);
    forall j: nat | b < j < |needle| && Suffix(needle, text, j)
      ensures needle[j] != c
    {
      if j < k { ShorterMatches(needle, text, k, j); }
    }
  }

  /** One byte of text: fall back along borders, then extend if possible. */
  method Advance(needle: seq<u8>, prefix: seq<nat>, matched: nat, c: u8, ghost text: seq<u8>) returns (next: nat)
    requires matched < |needle| && Longest(needle, text, matched) && Table(needle, prefix, matched)
    ensures next <= |needle| && Longest(needle, text + [c], next)
  {
    next := matched;
    while next != 0 && c != needle[next]
      invariant next <= matched && Suffix(needle, text, next) && NoneAbove(needle, text, c, next)
      decreases next
    {
      FallBack(needle, prefix, text, c, next);
      next := prefix[next - 1];
    }
    LongestAfter(needle, text, c, next);
    if c == needle[next] { next := next + 1; }
  }

  lemma LongestAfter(needle: seq<u8>, text: seq<u8>, c: u8, k: nat)
    requires k < |needle| && Suffix(needle, text, k) && NoneAbove(needle, text, c, k) && (k == 0 || c == needle[k])
    ensures Longest(needle, text + [c], if c == needle[k] then k + 1 else 0)
  {
    var m := if c == needle[k] then k + 1 else 0;
    SuffixExtends(needle, text, c, k);
    forall j: nat | m < j <= |needle|
      ensures !Suffix(needle, text + [c], j)
    {
      SuffixExtends(needle, text, c, j - 1);
    }
  }

  /** The border table of the needle, every index in bounds. */
  method BuildTable(needle: seq<u8>) returns (table: seq<nat>)
    requires needle != []
    ensures Table(needle, table, |needle|)
  {
    var prefix := new nat[|needle|](i => 0);
    var matched := 0;
    EmptyLongest(needle);
    for i := 1 to |needle|
      invariant prefix.Length == |needle|
      invariant Table(needle, prefix[..], i)
      invariant Longest(needle, needle[1..i], matched)
    {
      ShortText(needle, needle[1..i], matched);
      TableShrinks(needle, prefix[..], i, matched);
      assert needle[1..i] + [needle[i]] == needle[1..i + 1];
      matched := Advance(needle, prefix[..], matched, needle[i], needle[1..i]);
      ghost var before := prefix[..];
      prefix[i] := matched;
      assert prefix[..] == before[i := matched];
    }
    return prefix[..];
  }

  lemma EmptyLongest(needle: seq<u8>)
    requires needle != []
    ensures Longest(needle, [], 0) && needle[1..1] == []
  {
  }

  lemma ShortText(needle: seq<u8>, text: seq<u8>, m: nat)
    requires Suffix(needle, text, m)
    ensures m <= |text|
  {
  }

  lemma TableShrinks(needle: seq<u8>, prefix: seq<nat>, n: nat, m: nat)
    requires Table(needle, prefix, n) && m <= n
    ensures Table(needle, prefix, m)
  {
  }

  // ----- the captured ranges -----

  datatype Range = Range(start: nat, length: nat)

  /** ISO padding is never scanned; every frame is a text of its own. */
  function CapturedRanges(e: Event): seq<Range> {
    if IsoTransfer(e.meta) then FrameRanges(e.iso) else [Range(0, e.meta.payloadLen)]
  }

  function FrameRanges(iso: seq<IsoDescriptor>): (rs: seq<Range>)
    ensures |rs| == |iso| && forall i :: 0 <= i < |iso| ==> rs[i] == Range(iso[i].offset, iso[i].length)
  {
    seq(|iso|, i requires 0 <= i < |iso| => Range(iso[i].offset, iso[i].length))
  }

  predicate Readable(file: seq<u8>, r: Range) { r.length == 0 || r.start + r.length <= |file| }

  /** How much of a range the chunked reads deliver: all of it, or whole chunks up to the read that fails. */
  function Delivered(file: seq<u8>, r: Range): (n: nat)
    ensures n <= r.length && (n > 0 ==> r.start + n <= |file|)
    ensures Readable(file, r) <==> n == r.length
  {
    if Readable(file, r) then r.length
    else if r.start >= |file| then 0
    else ((|file| - r.start) / BUFFER) * BUFFER
  }

  function TextOf(file: seq<u8>, start: nat, n: nat): seq<u8>
    requires n > 0 ==> start + n <= |file|
  {
    if n == 0 then [] else file[start..start + n]
  }

  function ScanRange(file: seq<u8>, r: Range, needle: seq<u8>): Result<bool> {
    if Occurs(needle, TextOf(file, r.start, Delivered(file, r))) then Ok(true)
    else if Readable(file, r) then Ok(false)
    else Err
  }

  /** Ranges in order: the first match or the first failed read decides. */
  function ScanRanges(file: seq<u8>, rs: seq<Range>, needle: seq<u8>): Result<bool> {
    if rs == [] then Ok(false) else
    var first := ScanRange(file, rs[0], needle);
    if first == Ok(false) then ScanRanges(file, rs[1..], needle) else first
  }

  function Contains(e: Event, needle: seq<u8>): Result<bool> {
    ScanRanges(e.payload, CapturedRanges(e), needle)
  }

  /** When every range can be read, the answer is whether the needle lies wholly inside one of them. */
  lemma {:induction false} ScanMeans(file: seq<u8>, rs: seq<Range>, needle: seq<u8>)
    requires forall r :: r in rs ==> Readable(file, r)
    ensures ScanRanges(file, rs, needle).Ok?
    ensures ScanRanges(file, rs, needle).value <==>
            exists r :: r in rs && Readable(file, r) && Occurs(needle, TextOf(file, r.start, r.length))
  {
    if rs != [] {
      ScanMeans(file, rs[1..], needle);
      if r :| r in rs && Readable(file, r) && Occurs(needle, TextOf(file, r.start, r.length)) {
        assert r == rs[0] || r in rs[1..];
      }
    }
  }

  /** The needle lies in the payload at `k`, inside one frame for ISO transfers and inside the payload otherwise. */
  ghost predicate FoundAt(e: Event, needle: seq<u8>, k: nat) {
    && k + |needle| <= |e.payload| && e.payload[k..k + |needle|] == needle
    && if e.meta.transferType == 0
       then exists d :: d in e.iso && d.offset <= k && k + |needle| <= d.offset + d.length
       else k + |needle| <= e.meta.payloadLen
  }

  /**
   On a payload that holds what the event promises, `contains` is true exactly when the needle occurs in captured
   data: never across two ISO frames, nor in the padding between them.
   */
  lemma ContainsMeans(e: Event, needle: seq<u8>)
    requires needle != [] && e.meta.payloadLen <= |e.payload|
    requires e.meta.transferType == 0 ==>
               forall d :: d in e.iso && d.length != 0 ==> d.offset + d.length <= |e.payload|
    ensures Contains(e, needle) == Ok(exists k: nat :: FoundAt(e, needle, k))
  {
    hide Occurs;
    forall r | r in CapturedRanges(e)
      ensures Readable(e.payload, r)
    {
      if IsoTransfer(e.meta) { var d := FrameOf(e.iso, r); }
    }
    ScanMeans(e.payload, CapturedRanges(e), needle);
    if k: nat :| FoundAt(e, needle, k) {
      var r := RangeAround(e, needle, k);
      OccursInside(e.payload, r, needle, k);
    }
    if r :| r in CapturedRanges(e) && Occurs(needle, TextOf(e.payload, r.start, r.length)) {
      var k := PlaceInside(e.payload, r, needle);
      if IsoTransfer(e.meta) { var d := FrameOf(e.iso, r); }
      assert FoundAt(e, needle, k);
    }
  }

  lemma FrameOf(iso: seq<IsoDescriptor>, r: Range) returns (d: IsoDescriptor)
    requires r in FrameRanges(iso)
    ensures d in iso && r == Range(d.offset, d.length)
  {
    var i :| 0 <= i < |iso| && FrameRanges(iso)[i] == r;
    d := iso[i];
  }

  lemma RangeAround(e: Event, needle: seq<u8>, k: nat) returns (r: Range)
    requires FoundAt(e, needle, k)
    ensures r in CapturedRanges(e) && r.start <= k && k + |needle| <= r.start + r.length
  {
    r := Range(0, e.meta.payloadLen);
    if e.meta.transferType == 0 {
      var d :| d in e.iso && d.offset <= k && k + |needle| <= d.offset + d.length;
      var i :| 0 <= i < |e.iso| && e.iso[i] == d;
      assert FrameRanges(e.iso)[i] == Range(d.offset, d.length);
      r := Range(d.offset, d.length);
    }
  }

  lemma OccursInside(file: seq<u8>, r: Range, needle: seq<u8>, k: nat)
    requires needle != [] && r.start <= k && k + |needle| <= r.start + r.length && Readable(file, r)
    requires file[k..k + |needle|] == needle
    ensures Occurs(needle, TextOf(file, r.start, r.length))
  {
    var text := TextOf(file, r.start, r.length);
    SliceOfSlice(file, r.start, r.length, k - r.start, |needle|);
    assert OccursAt(needle, text, k - r.start);
  }

  lemma PlaceInside(file: seq<u8>, r: Range, needle: seq<u8>) returns (k: nat)
    requires needle != [] && Readable(file, r) && Occurs(needle, TextOf(file, r.start, r.length))
    ensures r.start <= k && k + |needle| <= r.start + r.length && k + |needle| <= |file|
    ensures file[k..k + |needle|] == needle
  {
    var text := TextOf(file, r.start, r.length);
    var j: nat :| j <= |text| && OccursAt(needle, text, j);
    k := r.start + j;
    SliceOfSlice(file, r.start, r.length, j, |needle|);
  }

  // ----- the search as the program runs it -----

  method ScanChunk(needle: seq<u8>, prefix: seq<nat>, matched: nat, chunk: seq<u8>, ghost text: seq<u8>)
    returns (found: bool, next: nat)
    requires matched < |needle| && Table(needle, prefix, |needle|)
    requires Longest(needle, text, matched) && !Occurs(needle, text)
    ensures !found ==> next < |needle| && Longest(needle, text + chunk, next) && !Occurs(needle, text + chunk)
    ensures found ==> exists k: nat :: k <= |chunk| && Occurs(needle, text + chunk[..k])
  {
    found, next := false, matched;
    assert text + chunk[..0] == text;
    for i := 0 to |chunk|
      invariant next < |needle| && Longest(needle, text + chunk[..i], next) && !Occurs(needle, text + chunk[..i])
    {
      ghost var seen := text + chunk[..i];
      assert text + chunk[..i + 1] == seen + [chunk[i]];
      OccursExtends(needle, seen, chunk[i]);
      TableShrinks(needle, prefix, |needle|, next);
      next := Advance(needle, prefix, next, chunk[i], seen);
      if next == |needle| {
        assert Occurs(needle, text + chunk[..i + 1]);
        return true, next;
      }
    }
    assert chunk[..|chunk|] == chunk;
  }

  method SearchRange(file: seq<u8>, r: Range, needle: seq<u8>, prefix: seq<nat>) returns (result: Result<bool>)
    requires needle != [] && Table(needle, prefix, |needle|)
    ensures result == ScanRange(file, r, needle)
  {
    hide Occurs; hide Longest; hide Table; hide Delivered; hide ScanRange; hide Aligned; hide Readable; hide TextOf;
    var at: nat, length: nat, matched: nat := r.start, r.length, 0;
    NothingRead();
    NoneInNothing(file, r.start, needle);
    ghost var delivered := Delivered(file, r);
    while length != 0
      invariant 0 <= length <= r.length && at == r.start + (r.length - length)
      invariant r.length - length <= delivered && (length == 0 || Aligned(r.length - length))
      invariant matched < |needle| && Longest(needle, TextOf(file, r.start, r.length - length), matched)
      invariant !Occurs(needle, TextOf(file, r.start, r.length - length))
    {
      var n := Min(length, BUFFER);
      ghost var read := r.length - length;
      if at + n > |file| {
        FailedRead(file, r, read, n);
        ReadFails(file, r, needle, read);
        return Err;
      }
      GoodRead(file, r, read, n);
      var chunk := file[at..at + n];
      ghost var text := TextOf(file, r.start, read);
      var found;
      found, matched := ScanChunk(needle, prefix, matched, chunk, text);
      Continued(file, r.start, read, n);
      if found {
        MatchCounts(file, r, needle, text, chunk, read + n);
        return Ok(true);
      }
      at, length := at + n, length - n;
    }
    NothingFound(file, r, needle);
    return Ok(false);
  }

  lemma NoneInNothing(file: seq<u8>, start: nat, needle: seq<u8>)
    requires needle != []
    ensures Longest(needle, TextOf(file, start, 0), 0) && !Occurs(needle, TextOf(file, start, 0))
  {
  }

  lemma FailedRead(file: seq<u8>, r: Range, read: nat, n: nat)
    requires read < r.length && read <= Delivered(file, r) && Aligned(read)
    requires n == Min(r.length - read, BUFFER) && r.start + read + n > |file|
    ensures Delivered(file, r) == read && !Readable(file, r)
  {
    if r.start < |file| {
      var left := |file| - r.start;
      assert left / BUFFER * BUFFER <= left;
      assert read == read / BUFFER * BUFFER;
    }
  }

  /** A number of bytes in whole chunks. */
  predicate Aligned(n: nat) { n % BUFFER == 0 }

  lemma NothingRead()
    ensures Aligned(0)
  {
  }

  /** The loop's outcomes, in terms of the whole range. */
  lemma ReadFails(file: seq<u8>, r: Range, needle: seq<u8>, read: nat)
    requires Delivered(file, r) == read && !Readable(file, r) && !Occurs(needle, TextOf(file, r.start, read))
    ensures ScanRange(file, r, needle) == Err
  {
    hide Occurs; hide Delivered; hide TextOf;
  }

  lemma NothingFound(file: seq<u8>, r: Range, needle: seq<u8>)
    requires r.length <= Delivered(file, r) && !Occurs(needle, TextOf(file, r.start, r.length))
    ensures ScanRange(file, r, needle) == Ok(false)
  {
    hide Occurs; hide Delivered; hide TextOf; hide Readable;
  }

  lemma Continued(file: seq<u8>, start: nat, read: nat, n: nat)
    requires start + read + n <= |file|
    ensures TextOf(file, start, read) + file[start + read..start + read + n] == TextOf(file, start, read + n)
  {
  }

  lemma GoodRead(file: seq<u8>, r: Range, read: nat, n: nat)
    requires read < r.length && read <= Delivered(file, r) && Aligned(read)
    requires n == Min(r.length - read, BUFFER) && r.start + read + n <= |file|
    ensures read + n <= Delivered(file, r) && (read + n == r.length || Aligned(read + n))
  {
  }

  lemma MatchCounts(file: seq<u8>, r: Range, needle: seq<u8>, text: seq<u8>, chunk: seq<u8>, n: nat)
    requires n <= Delivered(file, r) && text + chunk == TextOf(file, r.start, n)
    requires exists k: nat :: k <= |chunk| && Occurs(needle, text + chunk[..k])
    ensures ScanRange(file, r, needle) == Ok(true)
  {
    var k: nat :| k <= |chunk| && Occurs(needle, text + chunk[..k]);
    var found, whole := text + chunk[..k], TextOf(file, r.start, Delivered(file, r));
    assert found <= TextOf(file, r.start, n);
    assert TextOf(file, r.start, n) <= whole;
    OccursInLonger(needle, found, whole[|found|..]);
    hide Occurs;
    assert found + whole[|found|..] == whole;
  }

  /** `contains`: the table is built once, each range starts afresh, and reads are of at most 16384 bytes. */
  method Search(e: Event, needle: seq<u8>) returns (result: Result<bool>)
    requires needle != []
    ensures result == Contains(e, needle)
  {
    var prefix := BuildTable(needle);
    var ranges := CapturedRanges(e);
    for i := 0 to |ranges|
      invariant ScanRanges(e.payload, ranges, needle) == ScanRanges(e.payload, ranges[i..], needle)
    {
      assert ranges[i..][0] == ranges[i] && ranges[i..][1..] == ranges[i + 1..];
      var r := SearchRange(e.payload, ranges[i], needle, prefix);
      if r != Ok(false) { return r; }
    }
    return Ok(false);
  }
}
