/**
 Whole streams of records from many events at once. A stream's result depends only on each event's
 own subsequence, and every count of events balances.
 */
module Streams {
  import opened Bytes
  import opened Records
  import opened Reassembly

  /** The reassembler's state together with the events released so far under each record id. */
  datatype Config = Config(state: State, released: map<u64, seq<Event>>)

  const START := Config(State(map[], NO_STATS), map[])

  function Released(c: Config, id: u64): seq<Event> {
    if id in c.released then c.released[id] else []
  }

  function Log(c: Config, id: u64, e: Option<Event>): map<u64, seq<Event>> {
    if e.None? then c.released else c.released[id := Released(c, id) + [e.value]]
  }

  ghost function Take(c: Config, r: Record): Result<Config> {
    var p :- Unbounded(c.state, r);
    Ok(Config(p.0, Log(c, r.id, p.1)))
  }

  ghost function Run(c: Config, rs: seq<Record>): Result<Config>
    decreases rs
  {
    if rs == [] then Ok(c) else
    var d :- Take(c, rs[0]);
    Run(d, rs[1..])
  }

  /** The same run under the limit on unfinished events. */
  ghost function RunBounded(c: Config, rs: seq<Record>): Result<Config>
    decreases rs
  {
    if rs == [] then Ok(c) else
    var p :- Step(c.state, rs[0]);
    RunBounded(Config(p.0, Log(c, rs[0].id, p.1)), rs[1..])
  }

  /** No BEGIN arrives while the limit of unfinished events is reached. */
  ghost predicate WithinCapacity(c: Config, rs: seq<Record>)
    decreases rs
  {
    rs != [] ==>
      && !(rs[0].kind == RECORD_BEGIN && |c.state.pending| >= MAX_PENDING_EVENTS)
      && (Take(c, rs[0]).Ok? ==> WithinCapacity(Take(c, rs[0]).value, rs[1..]))
  }

  /** The limit only ever adds an error; it never changes what an error-free run produces. */
  lemma {:induction false} BoundedRuns(c: Config, rs: seq<Record>)
    ensures RunBounded(c, rs).Ok? <==> Run(c, rs).Ok? && WithinCapacity(c, rs)
    ensures RunBounded(c, rs).Ok? ==> RunBounded(c, rs) == Run(c, rs)
    decreases rs
  {
    if rs != [] && Take(c, rs[0]).Ok? {
      BoundedRuns(Take(c, rs[0]).value, rs[1..]);
    }
  }

  lemma {:induction false} RunAppend(c: Config, p: seq<Record>, q: seq<Record>)
    ensures Run(c, p + q) == if Run(c, p).Err? then Err else Run(Run(c, p).value, q)
    decreases p
  {
    if p == [] {
      assert p + q == q;
    } else {
      assert (p + q)[1..] == p[1..] + q;
      if Take(c, p[0]).Ok? {
        RunAppend(Take(c, p[0]).value, p[1..], q);
      }
    }
  }

  // ----- interleaving -----

  function Project(rs: seq<Record>, id: u64): seq<Record> {
    if rs == [] then [] else (if rs[0].id == id then [rs[0]] else []) + Project(rs[1..], id)
  }

  lemma {:induction false} ProjectAppend(p: seq<Record>, q: seq<Record>, id: u64)
    ensures Project(p + q, id) == Project(p, id) + Project(q, id)
  {
    if p == [] {
      assert p + q == q;
    } else {
      var x, t := p[0], p[1..];
      var head := if x.id == id then [x] else [];
      ProjectAppend(t, q, id);
      assert (p + q)[0] == x && (p + q)[1..] == t + q;
      assert Project(p + q, id) == head + Project(t + q, id);
      Associate(head, Project(t, id), Project(q, id));
    }
  }

  ghost predicate SameProjections(rs: seq<Record>, qs: seq<Record>) {
    forall id :: Project(rs, id) == Project(qs, id)
  }

  function Apply(c: Config, id: u64, p: Reply): Config {
    Config(Commit(c.state, id, p), Log(c, id, p.event))
  }

  lemma ApplyCommutes(c: Config, i: u64, p: Reply, j: u64, q: Reply)
    requires i != j
    ensures Apply(Apply(c, i, p), j, q) == Apply(Apply(c, j, q), i, p)
    ensures Lookup(Apply(c, i, p).state.pending, j) == Lookup(c.state.pending, j)
  {
    PutCommutes(c.state.pending, i, p.next, j, q.next);
    assert Log(Apply(c, i, p), j, q.event) == Log(Apply(c, j, q), i, p.event);
  }

  /** Records of different events commute, errors included. */
  lemma TakeCommutes(c: Config, x: Record, y: Record)
    requires x.id != y.id
    ensures Run(c, [x, y]) == Run(c, [y, x])
  {
    RunPair(c, x, y);
    RunPair(c, y, x);
    var a, b := React(Lookup(c.state.pending, x.id), x), React(Lookup(c.state.pending, y.id), y);
    if a.Ok? && b.Ok? {
      ApplyCommutes(c, x.id, a.value, y.id, b.value);
      ApplyCommutes(c, y.id, b.value, x.id, a.value);
    } else if a.Ok? {
      ApplyCommutes(c, x.id, a.value, y.id, Quiet(None));
    } else if b.Ok? {
      ApplyCommutes(c, y.id, b.value, x.id, Quiet(None));
    }
  }

  lemma RunPair(c: Config, x: Record, y: Record)
    ensures Run(c, [x, y]) == if Take(c, x).Err? then Err else Take(Take(c, x).value, y)
  {
    assert [x, y][1..] == [y] && [y][1..] == [];
    if Take(c, x).Ok? && Take(Take(c, x).value, y).Ok? {
      assert Run(Take(Take(c, x).value, y).value, []) == Take(Take(c, x).value, y);
    }
  }

  lemma PutCommutes(m: map<u64, Assembly>, i: u64, a: Option<Assembly>, j: u64, b: Option<Assembly>)
    requires i != j
    ensures Put(Put(m, i, a), j, b) == Put(Put(m, j, b), i, a)
  {
    var p, q := Put(Put(m, i, a), j, b), Put(Put(m, j, b), i, a);
    assert p.Keys == q.Keys;
  }

  lemma {:induction false} ToFront(c: Config, p: seq<Record>, x: Record, q: seq<Record>)
    requires forall r :: r in p ==> r.id != x.id
    ensures Run(c, p + [x] + q) == Run(c, [x] + (p + q))
    decreases p
  {
    if p == [] {
      assert p + [x] + q == [x] + (p + q);
    } else {
      var y, t := p[0], p[1..];
      assert p + [x] + q == [y] + (t + [x] + q);
      assert [x] + (p + q) == [x, y] + (t + q);
      assert [y, x] + (t + q) == [y] + ([x] + (t + q));
      TakeCommutes(c, x, y);
      RunAppend(c, [x, y], t + q);
      RunAppend(c, [y, x], t + q);
      RunAppend(c, [y], t + [x] + q);
      RunAppend(c, [y], [x] + (t + q));
      if Run(c, [y]).Ok? {
        ToFront(Run(c, [y]).value, t, x, q);
      }
    }
  }

  lemma {:induction false} SplitAtFirst(rs: seq<Record>, id: u64) returns (p: seq<Record>, x: Record, q: seq<Record>)
    requires Project(rs, id) != []
    ensures rs == p + [x] + q && x == Project(rs, id)[0] && x.id == id
    ensures forall r :: r in p ==> r.id != id
    ensures Project(p, id) == []
  {
    if rs[0].id == id {
      p, x, q := [], rs[0], rs[1..];
    } else {
      p, x, q := SplitAtFirst(rs[1..], id);
      p := [rs[0]] + p;
      assert p[1..] + [x] + q == rs[1..];
    }
  }

  /** Removing the same first record of one event leaves the projections equal. */
  lemma RemoveFirst(rs: seq<Record>, qs: seq<Record>, p: seq<Record>, q: seq<Record>)
    requires rs != [] && qs == p + [rs[0]] + q && SameProjections(rs, qs)
    requires Project(p, rs[0].id) == []
    ensures SameProjections(rs[1..], p + q)
  {
    var x := rs[0];
    forall id
      ensures Project(rs[1..], id) == Project(p + q, id)
    {
      assert Project(rs, id) == Project(qs, id);
      ProjectAppend(p + [x], q, id);
      ProjectAppend(p, [x], id);
      ProjectAppend(p, q, id);
      assert [x][1..] == [];
      if x.id == id {
        assert Project(rs, id)[1..] == Project(rs[1..], id);
        assert Project(qs, id)[1..] == Project(q, id);
      } else {
        assert Project(rs, id) == Project(rs[1..], id);
        assert Project(qs, id) == Project(p, id) + Project(q, id);
      }
    }
  }

  /**
   Non-interference: the outcome of a stream (error or not, unfinished events, released events under
   every id, and all counters) is a function of the per-event subsequences alone.
   */
  lemma {:induction false} NonInterference(c: Config, rs: seq<Record>, qs: seq<Record>)
    requires SameProjections(rs, qs)
    ensures Run(c, rs) == Run(c, qs)
    decreases rs
  {
    if rs == [] {
      assert qs == [] || Project(qs, qs[0].id) != Project(rs, qs[0].id);
    } else {
      var x := rs[0];
      assert Project(rs, x.id) == Project(qs, x.id);
      var p, y, q := SplitAtFirst(qs, x.id);
      RemoveFirst(rs, qs, p, q);
      ToFront(c, p, x, q);
      assert ([x] + (p + q))[1..] == p + q;
      if Take(c, x).Ok? {
        NonInterference(Take(c, x).value, rs[1..], p + q);
      }
    }
  }

  // ----- accounting -----

  function CountKind(rs: seq<Record>, kind: u16): nat {
    if rs == [] then 0 else (if rs[0].kind == kind then 1 else 0) + CountKind(rs[1..], kind)
  }

  /** END records whose event is not open; each is one of the orphan records. */
  ghost function OrphanEnds(c: Config, rs: seq<Record>): nat
    decreases rs
  {
    if rs == [] || Take(c, rs[0]).Err? then 0 else
    (if rs[0].kind == RECORD_END && rs[0].id !in c.state.pending then 1 else 0)
      + OrphanEnds(Take(c, rs[0]).value, rs[1..])
  }

  /** How one record moves an event between open, complete, incomplete and orphan. */
  lemma ReactCounts(a: Option<Assembly>, r: Record, p: Reply)
    requires React(a, r) == Ok(p)
    ensures (if a.Some? then 1 else 0) + (if r.kind == RECORD_BEGIN then 1 else 0)
            == (if p.next.Some? then 1 else 0) + p.complete + p.incomplete
    ensures p.complete + p.incomplete == if r.kind == RECORD_END && a.Some? then 1 else 0
    ensures r.kind == RECORD_END && a.None? ==> p.orphans == 1
    ensures p.complete == if p.event.Some? then 1 else 0
  {
  }

  lemma PutSize(m: map<u64, Assembly>, id: u64, v: Option<Assembly>)
    ensures |Put(m, id, v)| + (if id in m then 1 else 0) == |m| + (if v.Some? then 1 else 0)
  {
    if v.Some? { SizeWith(m, id, v.value); } else { SizeWithout(m, id); }
  }

  /** Every accepted BEGIN is still open or was counted once; every END is complete, incomplete or orphan. */
  lemma {:induction false} Accounting(c: Config, rs: seq<Record>)
    requires Run(c, rs).Ok?
    ensures var s, t := c.state, Run(c, rs).value.state;
            && s.stats.complete + s.stats.incomplete + |s.pending| + CountKind(rs, RECORD_BEGIN)
               == t.stats.complete + t.stats.incomplete + |t.pending|
            && s.stats.complete + s.stats.incomplete + CountKind(rs, RECORD_END)
               == t.stats.complete + t.stats.incomplete + OrphanEnds(c, rs)
            && s.stats.orphans + OrphanEnds(c, rs) <= t.stats.orphans
    decreases rs
  {
    if rs != [] {
      var r := rs[0];
      var a := Lookup(c.state.pending, r.id);
      var p := React(a, r).value;
      ReactCounts(a, r, p);
      PutSize(c.state.pending, r.id, p.next);
      assert Take(c, r) == Ok(Apply(c, r.id, p));
      Accounting(Apply(c, r.id, p), rs[1..]);
    }
  }

  lemma {:induction false} CountAppend(p: seq<Record>, q: seq<Record>, kind: u16)
    ensures CountKind(p + q, kind) == CountKind(p, kind) + CountKind(q, kind)
  {
    if p == [] {
      assert p + q == q;
    } else {
      assert (p + q)[1..] == p[1..] + q;
      CountAppend(p[1..], q, kind);
    }
  }

  /** A stream with no more BEGINs than there is room for never meets the limit. */
  lemma {:induction false} FewBegins(c: Config, rs: seq<Record>)
    requires |c.state.pending| + CountKind(rs, RECORD_BEGIN) <= 4096
    ensures WithinCapacity(c, rs)
    decreases rs
  {
    hide React;
    if rs != [] && Take(c, rs[0]).Ok? {
      var r := rs[0];
      var a := Lookup(c.state.pending, r.id);
      var p := React(a, r).value;
      ReactCounts(a, r, p);
      PutSize(c.state.pending, r.id, p.next);
      assert Take(c, r) == Ok(Apply(c, r.id, p));
      FewBegins(Apply(c, r.id, p), rs[1..]);
    }
  }
}
