/**
 Laws of the record stream, for every stream: how the order of one event's fragments, the
 interleaving of different events, and the number of unfinished events can and cannot matter.
 */
module Transport {
  import opened Bytes
  import opened Records
  import opened Reassembly

  // ----- fragment order within one event -----

  predicate IsBody(r: Record) { r.kind == RECORD_DATA || r.kind == RECORD_ISO }

  ghost function Extend(a: Assembly, r: Record): Result<Assembly>
    requires IsBody(r)
  {
    if r.kind == RECORD_DATA then StoreData(a, r.offset, r.body) else StoreIso(a, r.offset, r.body)
  }

  /** The records of one event between its BEGIN and its END. */
  ghost function Assemble(a: Assembly, rs: seq<Record>): Result<Assembly>
    requires forall r :: r in rs ==> IsBody(r)
    decreases rs
  {
    if rs == [] then Ok(a) else
    var b :- Extend(a, rs[0]);
    Assemble(b, rs[1..])
  }

  function OfKind(rs: seq<Record>, kind: u16): seq<Record> {
    if rs == [] then [] else (if rs[0].kind == kind then [rs[0]] else []) + OfKind(rs[1..], kind)
  }

  /** A data record commutes with every body record: same acceptance, same content, same count. */
  lemma DataCommutes(a: Assembly, x: Record, y: Record)
    requires IsBody(x) && IsBody(y) && (x.kind == RECORD_DATA || y.kind == RECORD_DATA)
    ensures Assemble(a, [x, y]) == Assemble(a, [y, x])
  {
    AssemblePair(a, x, y);
    AssemblePair(a, y, x);
    if x.kind == RECORD_DATA && y.kind == RECORD_DATA {
      FragmentsCommute(a, x.offset, x.body, y.offset, y.body);
    }
  }

  lemma AssemblePair(a: Assembly, x: Record, y: Record)
    requires IsBody(x) && IsBody(y)
    ensures Assemble(a, [x, y]) == if Extend(a, x).Err? then Err else Extend(Extend(a, x).value, y)
  {
    assert [x, y][1..] == [y] && [y][1..] == [];
    if Extend(a, x).Ok? {
      var b := Extend(a, x).value;
      assert Assemble(a, [x, y]) == Assemble(b, [y]);
      if Extend(b, y).Ok? {
        assert Assemble(Extend(b, y).value, []) == Extend(b, y);
      }
    }
  }

  /** Whether two fragments can both belong to one event does not depend on which comes first. */
  ghost predicate Compatible(iso: bool, o: nat, s: seq<u8>, p: nat, t: seq<u8>) {
    forall x :: o <= x < o + |s| && p <= x < p + |t| ==> iso && ByteAt(o, s, x) == ByteAt(p, t, x)
  }

  lemma AcceptedAfter(a: Assembly, o: nat, s: seq<u8>, p: nat, t: seq<u8>)
    requires DataAccepted(a, o, s)
    ensures DataAccepted(StoreData(a, o, s).value, p, t) <==>
            DataAccepted(a, p, t) && Compatible(IsoTransfer(a.meta), o, s, p, t)
  {
    var b := StoreData(a, o, s).value;
    var f := Fragment(o, s);
    forall x: nat
      ensures x in b.content <==> x in a.content || o <= x < o + |s|
      ensures o <= x < o + |s| ==> b.content[x] == ByteAt(o, s, x)
      ensures x in a.content && !(o <= x < o + |s|) ==> b.content[x] == a.content[x]
      ensures x in a.content && o <= x < o + |s| ==> IsoTransfer(a.meta) && a.content[x] == ByteAt(o, s, x)
    {
      assert x in f <==> o <= x < o + |s|;
    }
    if Clash(a, p, t) {
      var x :| x in a.content && p <= x < p + |t| && !(IsoTransfer(a.meta) && a.content[x] == ByteAt(p, t, x));
      assert x in b.content;
    }
    if !Compatible(IsoTransfer(a.meta), o, s, p, t) {
      var x :| o <= x < o + |s| && p <= x < p + |t| && !(IsoTransfer(a.meta) && ByteAt(o, s, x) == ByteAt(p, t, x));
      assert x in b.content;
    }
    if Clash(b, p, t) {
      var x :| x in b.content && p <= x < p + |t| && !(IsoTransfer(a.meta) && b.content[x] == ByteAt(p, t, x));
      assert x in a.content || o <= x < o + |s|;
    }
  }

  lemma FragmentsCommute(a: Assembly, o: nat, s: seq<u8>, p: nat, t: seq<u8>)
    ensures (StoreData(a, o, s).Ok? && StoreData(StoreData(a, o, s).value, p, t).Ok?) <==>
            (StoreData(a, p, t).Ok? && StoreData(StoreData(a, p, t).value, o, s).Ok?)
    ensures StoreData(a, o, s).Ok? && StoreData(StoreData(a, o, s).value, p, t).Ok? ==>
              StoreData(StoreData(a, o, s).value, p, t) == StoreData(StoreData(a, p, t).value, o, s)
  {
    if DataAccepted(a, o, s) {
      AcceptedAfter(a, o, s, p, t);
    }
    if DataAccepted(a, p, t) {
      AcceptedAfter(a, p, t, o, s);
    }
    if DataAccepted(a, o, s) && DataAccepted(a, p, t) && Compatible(IsoTransfer(a.meta), o, s, p, t) {
      var f, g := Fragment(o, s), Fragment(p, t);
      assert (a.content + f + g).Keys == (a.content + g + f).Keys;
      forall x | x in f && x in g
        ensures f[x] == g[x]
      {
        assert f[x] == ByteAt(o, s, x) && g[x] == ByteAt(p, t, x);
      }
      assert a.content + f + g == a.content + g + f;
    }
  }

  lemma {:induction false} AssembleAppend(a: Assembly, p: seq<Record>, q: seq<Record>)
    requires forall r :: r in p + q ==> IsBody(r)
    ensures forall r :: r in p ==> r in p + q
    ensures forall r :: r in q ==> r in p + q
    ensures Assemble(a, p + q) == if Assemble(a, p).Err? then Err else Assemble(Assemble(a, p).value, q)
    decreases p
  {
    if p == [] {
      assert p + q == q;
    } else {
      assert (p + q)[1..] == p[1..] + q;
      assert (p + q)[0] == p[0];
      if Extend(a, p[0]).Ok? {
        AssembleAppend(Extend(a, p[0]).value, p[1..], q);
      }
    }
  }

  /** A record that commutes with everything before it can be taken first. */
  lemma {:induction false} BodyToFront(a: Assembly, p: seq<Record>, x: Record, q: seq<Record>)
    requires forall r :: r in p + [x] + q ==> IsBody(r)
    requires x.kind == RECORD_DATA || forall r :: r in p ==> r.kind == RECORD_DATA
    ensures forall r :: r in [x] + (p + q) ==> IsBody(r)
    ensures Assemble(a, p + [x] + q) == Assemble(a, [x] + (p + q))
    decreases p
  {
    if p == [] {
      assert p + [x] + q == [x] + (p + q);
    } else {
      var y, t := p[0], p[1..];
      assert p + [x] + q == [y] + (t + [x] + q);
      assert [x] + (p + q) == [x, y] + (t + q);
      assert [y, x] + (t + q) == [y] + ([x] + (t + q));
      DataCommutes(a, x, y);
      assert forall r :: r in t + [x] + q ==> r in p + [x] + q;
      assert forall r :: r in t + q ==> r in p + [x] + q;
      assert y in p + [x] + q && x in p + [x] + q;
      AssembleAppend(a, [x, y], t + q);
      AssembleAppend(a, [y, x], t + q);
      AssembleAppend(a, [y], t + [x] + q);
      AssembleAppend(a, [y], [x] + (t + q));
      if Assemble(a, [y]).Ok? {
        BodyToFront(Assemble(a, [y]).value, t, x, q);
      }
    }
  }

  lemma {:induction false} OfKindAppend(p: seq<Record>, q: seq<Record>, kind: u16)
    ensures OfKind(p + q, kind) == OfKind(p, kind) + OfKind(q, kind)
  {
    if p == [] {
      assert p + q == q;
    } else {
      var x, t := p[0], p[1..];
      var head := if x.kind == kind then [x] else [];
      OfKindAppend(t, q, kind);
      assert (p + q)[0] == x && (p + q)[1..] == t + q;
      assert OfKind(p + q, kind) == head + OfKind(t + q, kind);
      Associate(head, OfKind(t, kind), OfKind(q, kind));
    }
  }

  /** The first record of a kind, with what surrounds it. */
  lemma {:induction false} SplitAtFirst(rs: seq<Record>, kind: u16) returns (p: seq<Record>, x: Record, q: seq<Record>)
    requires OfKind(rs, kind) != []
    ensures rs == p + [x] + q && x == OfKind(rs, kind)[0] && forall r :: r in p ==> r.kind != kind
  {
    if rs[0].kind == kind {
      p, x, q := [], rs[0], rs[1..];
    } else {
      p, x, q := SplitAtFirst(rs[1..], kind);
      p := [rs[0]] + p;
    }
  }

  /** The head of one arrangement can be found in the other behind records it commutes with. */
  lemma LocateHead(rs: seq<Record>, qs: seq<Record>) returns (p: seq<Record>, q: seq<Record>)
    requires rs != [] && multiset(rs) == multiset(qs) && OfKind(rs, RECORD_ISO) == OfKind(qs, RECORD_ISO)
    ensures qs == p + [rs[0]] + q
    ensures rs[0].kind == RECORD_ISO ==> forall r :: r in p ==> r.kind != RECORD_ISO
    ensures multiset(rs[1..]) == multiset(p + q)
    ensures OfKind(rs[1..], RECORD_ISO) == OfKind(p + q, RECORD_ISO)
  {
    var x := rs[0];
    if x.kind == RECORD_ISO {
      var y;
      p, y, q := SplitAtFirst(qs, RECORD_ISO);
    } else {
      assert x in multiset(rs);
      var k :| 0 <= k < |qs| && qs[k] == x;
      p, q := qs[..k], qs[k + 1..];
    }
    RemoveFromMultiset(rs, qs, p, x, q);
    RemoveFromKind(rs, qs, p, x, q);
  }

  lemma SameElements(rs: seq<Record>, qs: seq<Record>)
    requires multiset(rs) == multiset(qs)
    ensures |rs| == |qs| && forall r :: r in qs ==> r in rs
  {
    assert |multiset(rs)| == |rs| && |multiset(qs)| == |qs|;
    forall r | r in qs
      ensures r in rs
    {
      assert r in multiset(qs);
    }
  }

  /**
   Fragment-order independence: any two arrangements of the same body records that keep the ISO
   descriptors in order are both rejected, or both accepted with the same assembled event.
   */
  lemma {:induction false} FragmentOrderIndependence(a: Assembly, rs: seq<Record>, qs: seq<Record>)
    requires forall r :: r in rs ==> IsBody(r)
    requires multiset(rs) == multiset(qs) && OfKind(rs, RECORD_ISO) == OfKind(qs, RECORD_ISO)
    ensures forall r :: r in qs ==> IsBody(r)
    ensures Assemble(a, rs) == Assemble(a, qs)
    decreases |rs|
  {
    SameElements(rs, qs);
    if rs != [] {
      var p, q := LocateHead(rs, qs);
      assert forall r :: r in p ==> r in qs;
      assert IsBody(rs[0]) && forall r :: r in p ==> IsBody(r);
      BodyToFront(a, p, rs[0], q);
      assert ([rs[0]] + (p + q))[1..] == p + q;
      if Extend(a, rs[0]).Ok? {
        FragmentOrderIndependence(Extend(a, rs[0]).value, rs[1..], p + q);
      }
    }
  }

  lemma RemoveFromMultiset(rs: seq<Record>, qs: seq<Record>, p: seq<Record>, x: Record, q: seq<Record>)
    requires rs != [] && rs[0] == x && qs == p + [x] + q && multiset(rs) == multiset(qs)
    ensures multiset(rs[1..]) == multiset(p + q)
  {
    assert rs == [x] + rs[1..];
    assert multiset(rs[1..]) == multiset(rs) - multiset{x};
    assert multiset(p + q) == multiset(qs) - multiset{x};
  }

  lemma RemoveFromKind(rs: seq<Record>, qs: seq<Record>, p: seq<Record>, x: Record, q: seq<Record>)
    requires rs != [] && rs[0] == x && qs == p + [x] + q
    requires OfKind(rs, RECORD_ISO) == OfKind(qs, RECORD_ISO)
    requires x.kind == RECORD_ISO ==> forall r :: r in p ==> r.kind != RECORD_ISO
    ensures OfKind(rs[1..], RECORD_ISO) == OfKind(p + q, RECORD_ISO)
  {
    assert rs == [x] + rs[1..];
    OfKindAppend([x], rs[1..], RECORD_ISO);
    OfKindAppend(p + [x], q, RECORD_ISO);
    OfKindAppend(p, [x], RECORD_ISO);
    OfKindAppend(p, q, RECORD_ISO);
    OneOfKind(x, RECORD_ISO);
    if x.kind == RECORD_ISO { NoneOfKind(p, RECORD_ISO); }
    CancelMiddle(OfKind(p, RECORD_ISO), OfKind([x], RECORD_ISO), OfKind(q, RECORD_ISO), OfKind(rs[1..], RECORD_ISO));
  }

  lemma CancelMiddle<T>(before: seq<T>, one: seq<T>, after: seq<T>, rest: seq<T>)
    requires one + rest == (before + one) + after && (before == [] || one == [])
    ensures rest == before + after
  {
    assert rest == (one + rest)[|one|..];
    if before == [] {
      assert ((before + one) + after)[|one|..] == after;
    } else {
      assert before + one == before;
    }
  }

  lemma OneOfKind(x: Record, kind: u16)
    ensures OfKind([x], kind) == if x.kind == kind then [x] else []
  {
    assert [x][1..] == [];
  }

  lemma {:induction false} NoneOfKind(rs: seq<Record>, kind: u16)
    requires forall r :: r in rs ==> r.kind != kind
    ensures OfKind(rs, kind) == []
  {
    if rs != [] {
      NoneOfKind(rs[1..], kind);
    }
  }
}
