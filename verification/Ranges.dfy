/**
 The ordered map of half-open byte ranges that the reassembler keeps for each unfinished event.
 Its meaning is the set of offsets it holds; it is always the unique sorted, disjoint and
 non-touching form of that set.
 */
module Ranges {
  import opened Bytes

  /** Maps the start of each range to its end. */
  type RangeMap = map<nat, nat>

  ghost predicate Normal(r: RangeMap) {
    && (forall a :: a in r ==> a < r[a])
    && (forall a, b :: a in r && b in r && a < b ==> r[a] < b)
  }

  ghost predicate Holds(r: RangeMap, x: nat) {
    exists a :: a in r && a <= x < r[a]
  }

  // ----- ordered lookups -----

  ghost predicate IsGreatest(s: set<nat>, k: nat) { k in s && forall j :: j in s ==> j <= k }
  ghost predicate IsLeast(s: set<nat>, k: nat) { k in s && forall j :: j in s ==> k <= j }

  lemma {:induction false} GreatestExists(s: set<nat>) returns (k: nat)
    requires s != {}
    ensures IsGreatest(s, k)
  {
    k :| k in s;
    var rest := s - {k};
    assert forall i :: i in s ==> i == k || i in rest;
    if rest != {} {
      var j := GreatestExists(rest);
      if k < j { k := j; }
    }
  }

  lemma {:induction false} LeastExists(s: set<nat>) returns (k: nat)
    requires s != {}
    ensures IsLeast(s, k)
  {
    k :| k in s;
    var rest := s - {k};
    assert forall i :: i in s ==> i == k || i in rest;
    if rest != {} {
      var j := LeastExists(rest);
      if j < k { k := j; }
    }
  }

  lemma SomeGreatest(s: set<nat>)
    requires s != {}
    ensures exists k :: IsGreatest(s, k)
  {
    var k := GreatestExists(s);
  }

  lemma SomeLeast(s: set<nat>)
    requires s != {}
    ensures exists k :: IsLeast(s, k)
  {
    var k := LeastExists(s);
  }

  /** `range(..=x).next_back()`: the greatest start not above `x`. */
  function Floor(r: RangeMap, x: nat): (k: Option<nat>)
    ensures k.None? ==> forall a :: a in r ==> x < a
    ensures k.Some? ==> k.value in r && k.value <= x && forall a :: a in r && a <= x ==> a <= k.value
  {
    var below := set a | a in r && a <= x;
    if below == {} then
      assert forall a :: a in r && a <= x ==> a in below;
      None
    else
      SomeGreatest(below);
      assert exists k :: k in below && forall j :: j in below ==> j <= k by {
        var g :| IsGreatest(below, g);
      }
      var k :| k in below && forall j :: j in below ==> j <= k;
      assert forall a :: a in r && a <= x ==> a in below;
      Some(k)
  }

  /** `range(lo..=hi).next()`: the least start within the bounds. */
  function Ceiling(r: RangeMap, lo: nat, hi: nat): (k: Option<nat>)
    ensures k.None? ==> forall a :: a in r ==> a < lo || hi < a
    ensures k.Some? ==> k.value in r && lo <= k.value <= hi && forall a :: a in r && lo <= a <= hi ==> k.value <= a
  {
    var within := set a | a in r && lo <= a <= hi;
    if within == {} then
      assert forall a :: a in r && lo <= a <= hi ==> a in within;
      None
    else
      SomeLeast(within);
      assert exists k :: k in within && forall j :: j in within ==> k <= j by {
        var g :| IsLeast(within, g);
      }
      var k :| k in within && forall j :: j in within ==> k <= j;
      assert forall a :: a in r && lo <= a <= hi ==> a in within;
      Some(k)
  }

  // ----- canonical form -----

  /** Two normal maps holding the same offsets are the same map. */
  lemma NormalUnique(r: RangeMap, q: RangeMap)
    requires Normal(r) && Normal(q)
    requires forall x: nat :: Holds(r, x) <==> Holds(q, x)
    ensures r == q
  {
    NormalContained(r, q);
    NormalContained(q, r);
    assert r.Keys == q.Keys;
  }

  lemma NormalContained(r: RangeMap, q: RangeMap)
    requires Normal(r) && Normal(q)
    requires forall x: nat :: Holds(r, x) <==> Holds(q, x)
    ensures forall a :: a in r ==> a in q && q[a] == r[a]
  {
    forall a | a in r
      ensures a in q && q[a] == r[a]
    {
      assert Holds(r, a);
      var b :| b in q && b <= a < q[b];
      assert b == a || Holds(q, a - 1);
      assert q[b] <= r[a] || Holds(q, r[a]);
      assert r[a] <= q[b] || Holds(r, q[b]);
      RangeBounds(r, a);
      RangeBounds(q, b);
    }
  }

  /** Just before and just after a range of a normal map nothing is held. */
  lemma RangeBounds(r: RangeMap, a: nat)
    requires Normal(r) && a in r
    ensures !Holds(r, r[a])
    ensures a > 0 ==> !Holds(r, a - 1)
  {
    forall c | c in r
      ensures !(c <= r[a] < r[c]) && !(c <= a - 1 < r[c])
    {
      assert c < a ==> r[c] < a;
      assert a < c ==> r[a] < c;
    }
  }

  /** The completeness test looks at one range only, which decides whether a whole interval is held. */
  predicate Covers(r: RangeMap, start: nat, len: nat) {
    len == 0 || (var k := Floor(r, start); k.Some? && start + len <= r[k.value])
  }

  lemma CoversMeansHeld(r: RangeMap, start: nat, len: nat)
    requires Normal(r)
    ensures Covers(r, start, len) <==> forall x :: start <= x < start + len ==> Holds(r, x)
  {
    var k := Floor(r, start);
    if Covers(r, start, len) {
      forall x | start <= x < start + len
        ensures Holds(r, x)
      {
        assert k.value in r && k.value <= x < r[k.value];
      }
    } else if Holds(r, start) {
      var a :| a in r && a <= start < r[a];
      assert k.value == a;
      RangeBounds(r, a);
      assert start <= r[a] < start + len;
    } else {
      assert start < start + len;
    }
  }

  /**
   What the merge loop has established when it stops: `rest` is `r` without the ranges that meet
   [offset, end], and [start, last) is their union with it.
   */
  ghost predicate Merged(r: RangeMap, rest: RangeMap, first: nat, offset: nat, end: nat, start: nat, last: nat) {
    && rest.Keys <= r.Keys
    && (forall a :: a in rest ==> rest[a] == r[a])
    && (forall a :: a in r && a !in rest ==> first <= a <= end && start <= a && r[a] <= last)
    && start <= offset < end <= last
    && (start == offset || (start in r && start !in rest))
    && (last == end || exists a :: a in r && a !in rest && r[a] == last)
  }

  /** One round of the merge loop. */
  lemma MergeStep(r: RangeMap, rest: RangeMap, first: nat, offset: nat, end: nat, start: nat, last: nat, a: nat)
    requires Merged(r, rest, first, offset, end, start, last)
    requires a in rest && first <= a <= end
    ensures Merged(r, rest - {a}, first, offset, end, Min(start, a), Max(last, r[a]))
  {
    if last != end {
      var c: nat :| c in r && c !in rest && r[c] == last;
      assert c !in rest - {a};
    }
    assert a !in rest - {a};
  }

  /** Where the merge loop starts: at the preceding range if it reaches `offset`, else at `offset`. */
  function FirstTouching(r: RangeMap, offset: nat): nat {
    var k := Floor(r, offset);
    if k.Some? && r[k.value] >= offset then k.value else offset
  }

  /** The ranges left over lie strictly on either side of the merged one. */
  lemma MergedApart(r: RangeMap, rest: RangeMap, offset: nat, end: nat, start: nat, last: nat, a: nat)
    requires Normal(r)
    requires Merged(r, rest, FirstTouching(r, offset), offset, end, start, last)
    requires a in rest && (a < FirstTouching(r, offset) || end < a)
    requires FirstTouching(r, offset) < offset ==> FirstTouching(r, offset) !in rest
    ensures (a < start && rest[a] < start) || last < a
  {
    var k := Floor(r, offset);
    if end < a {
      assert forall c :: c in r && c !in rest ==> r[c] < a;
    } else {
      assert a <= k.value;
    }
  }

  /** `q` is normal and holds exactly what `r` holds plus the interval. */
  ghost predicate Extends(q: RangeMap, r: RangeMap, offset: nat, end: nat) {
    Normal(q) && forall x: nat :: Holds(q, x) <==> Holds(r, x) || offset <= x < end
  }

  lemma MergedBounds(r: RangeMap, rest: RangeMap, first: nat, offset: nat, end: nat, start: nat, last: nat)
    requires Normal(r) && Merged(r, rest, first, offset, end, start, last)
    ensures start <= offset < end <= last && Normal(rest)
    ensures first < offset && (forall a :: a in rest ==> a < first || end < a) ==> first !in rest
  {
  }

  /** Inserting the merged range keeps the map normal and adds exactly the new interval. */
  lemma InsertMerged(r: RangeMap, rest: RangeMap, offset: nat, end: nat, start: nat, last: nat)
    requires Normal(r)
    requires Merged(r, rest, FirstTouching(r, offset), offset, end, start, last)
    requires forall a :: a in rest ==> a < FirstTouching(r, offset) || end < a
    ensures Extends(rest[start := last], r, offset, end)
  {
    MergedBounds(r, rest, FirstTouching(r, offset), offset, end, start, last);
    StartTouches(r, rest, offset, end, start, last);
    hide Merged; hide Holds; hide FirstTouching; hide Normal;
    forall a | a in rest
      ensures (a < start && rest[a] < start) || last < a
    {
      MergedApart(r, rest, offset, end, start, last, a);
    }
    NormalInserted(rest, start, last);
    forall x: nat
      ensures Holds(rest[start := last], x) <==> Holds(r, x) || offset <= x < end
    {
      HeldInserted(rest, start, last, x);
      HeldAfterMerge(r, rest, FirstTouching(r, offset), offset, end, start, last, x);
    }
  }

  lemma StartTouches(r: RangeMap, rest: RangeMap, offset: nat, end: nat, start: nat, last: nat)
    requires Normal(r) && Merged(r, rest, FirstTouching(r, offset), offset, end, start, last)
    ensures start < offset ==> start in r && r[start] >= offset
  {
    hide Holds;
  }

  lemma NormalInserted(rest: RangeMap, start: nat, last: nat)
    requires Normal(rest) && start < last
    requires forall a :: a in rest ==> (a < start && rest[a] < start) || last < a
    ensures start !in rest && Normal(rest[start := last])
  {
  }

  lemma HeldInserted(rest: RangeMap, start: nat, last: nat, x: nat)
    requires start !in rest
    ensures Holds(rest[start := last], x) <==> Holds(rest, x) || start <= x < last
  {
    var q := rest[start := last];
    if start <= x < last {
      assert start in q && start <= x < q[start];
    }
    if a: nat :| a in rest && a <= x < rest[a] {
      assert a in q && a <= x < q[a];
    }
  }

  /** What was merged away lies inside the merged range, and what the merged range adds is the fragment. */
  lemma HeldAfterMerge(r: RangeMap, rest: RangeMap, first: nat, offset: nat, end: nat, start: nat, last: nat, x: nat)
    requires Merged(r, rest, first, offset, end, start, last)
    requires start < offset ==> start in r && r[start] >= offset
    ensures Holds(rest, x) || start <= x < last <==> Holds(r, x) || offset <= x < end
  {
    if start <= x < offset {
      assert start in r && start <= x < r[start];
    } else if end <= x < last {
      var c: nat :| c in r && c !in rest && r[c] == last;
      assert c <= x < r[c];
    }
  }
}
