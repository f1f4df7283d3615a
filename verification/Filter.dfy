/**
 The filter language: three-valued evaluation of an expression on an event, and the predicates that
 are safe to test in the kernel before the event exists.
 */
module Filter {
  import opened Bytes
  import opened Records
  import opened Search
  import Arithmetic

  datatype Truth = False | True | Unknown {
    function Not(): Truth {
      match this
      case False => True
      case True => False
      case Unknown => Unknown
    }

    function And(other: Truth): Truth {
      if False? || other.False? then False
      else if True? && other.True? then True
      else Unknown
    }

    function Or(other: Truth): Truth {
      if True? || other.True? then True
      else if False? && other.False? then False
      else Unknown
    }
  }

  function Of(b: bool): Truth { if b then True else False }

  datatype FieldName =
    | Bus | Device | Vid | Pid | Endpoint | EpNum | Direction | Transfer | Requested | Actual | Length
    | Captured | Frames | Status | EventType | Interval | StartFrame | Errors | UrbId | Request | RequestType
    | Value | Index | SetupLength | Latency | Payload(offset: u64, width: u8)

  datatype Compare = Eq | Ne | Lt | Le | Gt | Ge {
    predicate Matches(a: int, b: int) {
      match this
      case Eq => a == b
      case Ne => a != b
      case Lt => a < b
      case Le => a <= b
      case Gt => a > b
      case Ge => a >= b
    }

    function Invert(): Compare {
      match this
      case Eq => Ne
      case Ne => Eq
      case Lt => Ge
      case Le => Gt
      case Gt => Le
      case Ge => Lt
    }

    function Code(): u32 {
      match this
      case Eq => 0
      case Ne => 1
      case Lt => 2
      case Le => 3
      case Gt => 4
      case Ge => 5
    }
  }

  datatype Predicate = Predicate(field: FieldName, mask: Option<u64>, comparison: Compare, value: int)

  datatype Expr =
    | All
    | Test(p: Predicate)
    | Contains(needle: seq<u8>)
    | And(a: Expr, b: Expr)
    | Or(a: Expr, b: Expr)
    | Not(e: Expr)

  // ----- evaluation -----

  function SetupField(f: FieldName, s: Setup): int {
    match f
    case Request => s[1]
    case RequestType => s[0]
    case Value => U16At(s, 2)
    case Index => U16At(s, 4)
    case _ => U16At(s, 6)
  }

  /** Big-endian value of a byte string. */
  function FromBe(b: seq<u8>): nat {
    if b == [] then 0 else 256 * FromBe(b[..|b| - 1]) + b[|b| - 1]
  }

  /** Bytes of one captured region; padding between ISO frames is not captured data. */
  function PayloadField(ev: Event, offset: u64, width: u8): Result<Option<int>> {
    var end := offset + width;
    if end >= TWO64 then Ok(None)
    else if ev.meta.hasData == 0 || end > ev.meta.payloadLen then Ok(None)
    else if IsoTransfer(ev.meta) && !(exists d | d in ev.iso :: offset >= d.offset && end <= d.offset + d.length)
    then Ok(None)
    else if end > |ev.payload| then Err
    else Ok(Some(FromBe(ev.payload[offset..end])))
  }

  function FieldValue(f: FieldName, ev: Event, latency: Option<u64>): Result<Option<int>> {
    if (f.Vid? || f.Pid?) && !ev.identityKnown then Ok(None)
    else if f.Requested? && !ev.requestedKnown then Ok(None)
    else
      var m := ev.meta;
      match f
      case Bus => Ok(Some(m.bus))
      case Device => Ok(Some(m.device))
      case Vid => Ok(Some(m.vid))
      case Pid => Ok(Some(m.pid))
      case Endpoint => Ok(Some(m.endpoint))
      case EpNum => Ok(Some(m.endpoint % 16))
      case Direction => Ok(Some(m.endpoint / 128))
      case Transfer => Ok(Some(m.transferType))
      case Requested => Ok(Some(m.requestedLen))
      case Actual => Ok(if m.eventType == SUBMIT then None else Some(m.actualLen))
      case Length => Ok(Some(if m.eventType == SUBMIT then m.requestedLen else m.actualLen))
      case Captured => Ok(Some(m.payloadLen))
      case Frames => Ok(Some(m.isoCount))
      case Status => Ok(Some(m.status))
      case EventType => Ok(Some(m.eventType))
      case Interval => Ok(Some(m.interval))
      case StartFrame => Ok(Some(m.startFrame))
      case Errors => Ok(Some(m.errorCount))
      case UrbId => Ok(Some(m.urbId))
      case Latency => Ok(if latency.Some? then Some(latency.value) else None)
      case Payload(offset, width) => PayloadField(ev, offset, width)
      case _ => Ok(if m.setupPresent == 0 then None else Some(SetupField(f, m.setup)))
  }

  function Masked(value: int, mask: Option<u64>): int {
    if mask.Some? then BitAnd(value % TWO64, mask.value) else value
  }

  function EvaluateTest(p: Predicate, ev: Event, latency: Option<u64>): Result<Truth> {
    var v :- FieldValue(p.field, ev, latency);
    Ok(if v.None? then Unknown else Of(p.comparison.Matches(Masked(v.value, p.mask), p.value)))
  }

  function Evaluate(e: Expr, ev: Event, latency: Option<u64>): Result<Truth> {
    match e
    case All => Ok(True)
    case Not(inner) =>
      var v :- Evaluate(inner, ev, latency);
      Ok(v.Not())
    case And(a, b) =>
      var x :- Evaluate(a, ev, latency);
      if x.False? then Ok(x) else
      var y :- Evaluate(b, ev, latency);
      Ok(x.And(y))
    case Or(a, b) =>
      var x :- Evaluate(a, ev, latency);
      if x.True? then Ok(x) else
      var y :- Evaluate(b, ev, latency);
      Ok(x.Or(y))
    case Test(p) => EvaluateTest(p, ev, latency)
    case Contains(needle) =>
      if ev.meta.hasData == 0 then Ok(Unknown) else
      var found :- Search.Contains(ev, needle);
      Ok(Of(found))
  }

  // ----- necessary predicates -----

  /** Predicates that must hold whenever the expression is true (or, negated, false), without repetition. */
  function Required(e: Expr, negated: bool): seq<Predicate> {
    match e
    case Test(p) => [if negated then p.(comparison := p.comparison.Invert()) else p]
    case Not(inner) => Required(inner, !negated)
    case And(a, b) => Combine(Required(a, negated), Required(b, negated), !negated)
    case Or(a, b) => Combine(Required(a, negated), Required(b, negated), negated)
    case _ => []
  }

  function Combine(left: seq<Predicate>, right: seq<Predicate>, both: bool): seq<Predicate> {
    if both then Union(left, right) else Common(left, right)
  }

  function Union(left: seq<Predicate>, right: seq<Predicate>): seq<Predicate>
    decreases right
  {
    if right == [] then left
    else Union(if right[0] in left then left else left + [right[0]], right[1..])
  }

  function Common(left: seq<Predicate>, right: seq<Predicate>): seq<Predicate> {
    if left == [] then [] else (if left[0] in right then [left[0]] else []) + Common(left[1..], right)
  }

  // ----- kernel predicates -----

  const MAX_KERNEL_PREDICATES: nat := 64

  datatype KernelPredicate = KernelPredicate(field: u32, comparison: u32, value: u64, mask: u64)

  /** Only fields that cannot change between submission and completion have a kernel code. */
  function StableCode(f: FieldName): Option<u32> {
    match f
    case Bus => Some(1)
    case Device => Some(2)
    case Vid => Some(3)
    case Pid => Some(4)
    case Endpoint => Some(5)
    case EpNum => Some(6)
    case Direction => Some(7)
    case Transfer => Some(8)
    case Requested => Some(9)
    case Frames => Some(10)
    case _ => None
  }

  function ToKernel(p: Predicate): Option<KernelPredicate> {
    var code := StableCode(p.field);
    if code.None? || p.value < 0 || p.value >= TWO64 then None
    else Some(KernelPredicate(code.value, p.comparison.Code(), p.value,
                              if p.mask.Some? then p.mask.value else TWO64 - 1))
  }

  function FilterMap(ps: seq<Predicate>): seq<KernelPredicate> {
    if ps == [] then [] else
    (var k := ToKernel(ps[0]); if k.Some? then [k.value] else []) + FilterMap(ps[1..])
  }

  function KernelPredicates(e: Expr): (ks: seq<KernelPredicate>)
    ensures |ks| <= MAX_KERNEL_PREDICATES
  {
    var ks := FilterMap(Required(e, false));
    ks[..Min(|ks|, MAX_KERNEL_PREDICATES)]
  }

  function KernelField(code: u32, m: EventMeta): Option<u64> {
    match code
    case 1 => Some(m.bus)
    case 2 => Some(m.device)
    case 3 => Some(m.vid)
    case 4 => Some(m.pid)
    case 5 => Some(m.endpoint)
    case 6 => Some(m.endpoint % 16)
    case 7 => Some(m.endpoint / 128)
    case 8 => Some(m.transferType)
    case 9 => Some(m.requestedLen)
    case 10 => Some(m.isoCount)
    case _ => None
  }

  predicate KernelMatches(k: KernelPredicate, m: EventMeta) {
    var field := KernelField(k.field, m);
    field.Some? ==>
      var v := BitAnd(field.value, k.mask);
      match k.comparison
      case 0 => v == k.value
      case 1 => v != k.value
      case 2 => v < k.value
      case 3 => v <= k.value
      case 4 => v > k.value
      case 5 => v >= k.value
      case _ => true
  }

  /** The kernel's test of a submission: a failing loop helper accepts, and so does a missing entry. */
  method Prefilter(m: EventMeta, table: seq<KernelPredicate>, count: u32, loopFailed: bool) returns (accepted: bool)
    ensures accepted
            <==> count == 0 || loopFailed
                 || forall i :: 0 <= i < Min(count, MAX_KERNEL_PREDICATES) && i < |table| ==> KernelMatches(table[i], m)
  {
    if count == 0 || loopFailed { return true; }
    accepted := true;
    var index := 0;
    while index < Min(count, MAX_KERNEL_PREDICATES)
      invariant 0 <= index <= Min(count, MAX_KERNEL_PREDICATES)
      invariant accepted && forall i :: 0 <= i < index && i < |table| ==> KernelMatches(table[i], m)
    {
      if index < |table| && !KernelMatches(table[index], m) {
        return false;
      }
      index := index + 1;
    }
  }

  // ----- what "necessary" means -----

  /**
   All the ways the expression can come out true (or, negated, false), each as the set of predicates it
   relies on. Byte searches and the empty filter rely on none.
   */
  function Ways(e: Expr, negated: bool): set<set<Predicate>> {
    match e
    case All => if negated then {} else {{}}
    case Test(p) => {{if negated then p.(comparison := p.comparison.Invert()) else p}}
    case Contains(_) => {{}}
    case Not(inner) => Ways(inner, !negated)
    case And(a, b) => Join(Ways(a, negated), Ways(b, negated), !negated)
    case Or(a, b) => Join(Ways(a, negated), Ways(b, negated), negated)
  }

  function Join(x: set<set<Predicate>>, y: set<set<Predicate>>, both: bool): set<set<Predicate>> {
    if both then set s, t | s in x && t in y :: s + t else x + y
  }

  /** What a non-empty filter text can denote. */
  predicate Printable(e: Expr) {
    match e
    case All => false
    case Test(_) => true
    case Contains(_) => true
    case Not(inner) => Printable(inner)
    case And(a, b) => Printable(a) && Printable(b)
    case Or(a, b) => Printable(a) && Printable(b)
  }

  predicate Holds(p: Predicate, ev: Event, latency: Option<u64>) {
    EvaluateTest(p, ev, latency) == Ok(True)
  }

  lemma {:induction false} UnionMembers(left: seq<Predicate>, right: seq<Predicate>, p: Predicate)
    ensures p in Union(left, right) <==> p in left || p in right
    decreases right
  {
    if right != [] {
      UnionMembers(if right[0] in left then left else left + [right[0]], right[1..], p);
    }
  }

  lemma {:induction false} CommonMembers(left: seq<Predicate>, right: seq<Predicate>, p: Predicate)
    ensures p in Common(left, right) <==> p in left && p in right
  {
    if left != [] {
      CommonMembers(left[1..], right, p);
    }
  }

  ghost predicate InEvery(p: Predicate, ways: set<set<Predicate>>) {
    forall w :: w in ways ==> p in w
  }

  lemma CombineMembers(left: seq<Predicate>, right: seq<Predicate>, both: bool, p: Predicate)
    ensures p in Combine(left, right, both) <==> if both then p in left || p in right else p in left && p in right
  {
    UnionMembers(left, right, p);
    CommonMembers(left, right, p);
  }

  /** For non-empty sets of ways, joining adds up what is in every way. */
  lemma JoinInEvery(x: set<set<Predicate>>, y: set<set<Predicate>>, both: bool, p: Predicate)
    ensures both && (InEvery(p, x) || InEvery(p, y)) ==> InEvery(p, Join(x, y, both))
    ensures both && x != {} && y != {} && InEvery(p, Join(x, y, both)) ==> InEvery(p, x) || InEvery(p, y)
    ensures both && x != {} && y != {} ==> Join(x, y, both) != {}
    ensures !both ==> (InEvery(p, Join(x, y, both)) <==> InEvery(p, x) && InEvery(p, y))
  {
    if both && !InEvery(p, x) && !InEvery(p, y) {
      var s :| s in x && p !in s;
      var t :| t in y && p !in t;
      assert s + t in Join(x, y, both);
      assert p !in s + t;
    }
    if both && x != {} && y != {} {
      var s :| s in x;
      var t :| t in y;
      assert s + t in Join(x, y, both);
    }
  }

  /** A required predicate is in every way. */
  lemma {:induction false} RequiredInEveryWay(e: Expr, negated: bool, p: Predicate)
    requires p in Required(e, negated)
    ensures InEvery(p, Ways(e, negated))
  {
    match e
    case Not(inner) => RequiredInEveryWay(inner, !negated, p);
    case And(a, b) =>
      CombineMembers(Required(a, negated), Required(b, negated), !negated, p);
      if p in Required(a, negated) { RequiredInEveryWay(a, negated, p); }
      if p in Required(b, negated) { RequiredInEveryWay(b, negated, p); }
      JoinInEvery(Ways(a, negated), Ways(b, negated), !negated, p);
    case Or(a, b) =>
      CombineMembers(Required(a, negated), Required(b, negated), negated, p);
      if p in Required(a, negated) { RequiredInEveryWay(a, negated, p); }
      if p in Required(b, negated) { RequiredInEveryWay(b, negated, p); }
      JoinInEvery(Ways(a, negated), Ways(b, negated), negated, p);
    case _ =>
  }

  /** Conversely, for every expression a non-empty filter text can denote, nothing in every way is missed. */
  lemma {:induction false} EveryWayRequired(e: Expr, negated: bool, p: Predicate)
    requires Printable(e)
    ensures Ways(e, negated) != {}
    ensures InEvery(p, Ways(e, negated)) ==> p in Required(e, negated)
  {
    match e
    case Not(inner) => EveryWayRequired(inner, !negated, p);
    case And(a, b) =>
      EveryWayRequired(a, negated, p);
      EveryWayRequired(b, negated, p);
      CombineMembers(Required(a, negated), Required(b, negated), !negated, p);
      JoinInEvery(Ways(a, negated), Ways(b, negated), !negated, p);
    case Or(a, b) =>
      EveryWayRequired(a, negated, p);
      EveryWayRequired(b, negated, p);
      CombineMembers(Required(a, negated), Required(b, negated), negated, p);
      JoinInEvery(Ways(a, negated), Ways(b, negated), negated, p);
    case Test(q) =>
      assert (if negated then {q.(comparison := q.comparison.Invert())} else {q}) in Ways(e, negated);
    case Contains(_) =>
      assert {} in Ways(e, negated);
  }

  /** Exactly the predicates that no way of satisfying the expression can do without. */
  lemma RequiredExact(e: Expr, negated: bool, p: Predicate)
    requires Printable(e)
    ensures p in Required(e, negated) <==> InEvery(p, Ways(e, negated))
  {
    EveryWayRequired(e, negated, p);
    if p in Required(e, negated) { RequiredInEveryWay(e, negated, p); }
  }

  function Target(negated: bool): Truth { if negated then False else True }

  ghost predicate AllHold(w: set<Predicate>, ev: Event, latency: Option<u64>) {
    forall p :: p in w ==> Holds(p, ev, latency)
  }

  /** An expression that came out as wanted did so in one of its ways; unknown fields never help. */
  lemma {:induction false} SomeWay(e: Expr, negated: bool, ev: Event, latency: Option<u64>) returns (w: set<Predicate>)
    requires Evaluate(e, ev, latency) == Ok(Target(negated))
    ensures w in Ways(e, negated) && AllHold(w, ev, latency)
  {
    match e
    case All => w := {};
    case Contains(_) => w := {};
    case Test(p) =>
      var q := if negated then p.(comparison := p.comparison.Invert()) else p;
      w := {q};
    case Not(inner) => w := SomeWay(inner, !negated, ev, latency);
    case And(a, b) =>
      if negated {
        if Evaluate(a, ev, latency) == Ok(False) {
          w := SomeWay(a, true, ev, latency);
        } else {
          w := SomeWay(b, true, ev, latency);
        }
      } else {
        var s := SomeWay(a, false, ev, latency);
        var t := SomeWay(b, false, ev, latency);
        w := s + t;
      }
    case Or(a, b) =>
      if !negated {
        if Evaluate(a, ev, latency) == Ok(True) {
          w := SomeWay(a, false, ev, latency);
        } else {
          w := SomeWay(b, false, ev, latency);
        }
      } else {
        var s := SomeWay(a, true, ev, latency);
        var t := SomeWay(b, true, ev, latency);
        w := s + t;
      }
  }

  // ----- prefilter soundness -----

  /** The fields that stay the same from submission to completion. */
  predicate SameStableFields(m: EventMeta, n: EventMeta) {
    && m.bus == n.bus && m.device == n.device && m.vid == n.vid && m.pid == n.pid && m.endpoint == n.endpoint
    && m.transferType == n.transferType && m.requestedLen == n.requestedLen && m.isoCount == n.isoCount
  }

  /** The kernel reads a stable field as userspace does. */
  lemma StableField(f: FieldName, ev: Event, latency: Option<u64>, submission: EventMeta)
    requires StableCode(f).Some? && SameStableFields(ev.meta, submission)
    requires FieldValue(f, ev, latency).Ok? && FieldValue(f, ev, latency).value.Some?
    ensures KernelField(StableCode(f).value, submission).Some?
    ensures FieldValue(f, ev, latency) == Ok(Some(KernelField(StableCode(f).value, submission).value))
  {
  }

  /** The kernel compares as userspace does; an absent mask and an all-ones mask are the same. */
  lemma KernelCompares(c: Compare, field: u64, mask: Option<u64>, value: u64, m: EventMeta, code: u32)
    requires KernelField(code, m) == Some(field) && c.Matches(Masked(field, mask), value)
    ensures KernelMatches(KernelPredicate(code, c.Code(), value, if mask.Some? then mask.value else TWO64 - 1), m)
  {
    hide KernelField;
    hide BitAnd;
    MaskAgrees(field, mask);
    hide Masked;
  }

  lemma MaskAgrees(field: u64, mask: Option<u64>)
    ensures BitAnd(field, if mask.Some? then mask.value else TWO64 - 1) == Masked(field, mask)
  {
    hide Pow2; hide BitAnd;
    Arithmetic.Pow2Values();
    BitAndOnes(field, 64);
    assert field % TWO64 == field;
  }

  lemma KernelAgrees(p: Predicate, ev: Event, latency: Option<u64>, submission: EventMeta)
    requires Holds(p, ev, latency) && ToKernel(p).Some? && SameStableFields(ev.meta, submission)
    ensures KernelMatches(ToKernel(p).value, submission)
  {
    StableField(p.field, ev, latency, submission);
    hide FieldValue;
    hide KernelField;
    hide KernelMatches;
    hide BitAnd;
    var code := StableCode(p.field).value;
    KernelCompares(p.comparison, KernelField(code, submission).value, p.mask, p.value, submission, code);
  }

  lemma {:induction false} FilterMapMembers(ps: seq<Predicate>, k: KernelPredicate)
    ensures k in FilterMap(ps) <==> exists p :: p in ps && ToKernel(p) == Some(k)
  {
    if ps != [] {
      FilterMapMembers(ps[1..], k);
      if p :| p in ps && ToKernel(p) == Some(k) {
        assert p == ps[0] || p in ps[1..];
      }
    }
  }

  /** The kernel can test a predicate that no way of satisfying the expression can do without. */
  ghost predicate Necessary(k: KernelPredicate, e: Expr) {
    exists p :: InEvery(p, Ways(e, false)) && ToKernel(p) == Some(k)
  }

  /** The kernel is given necessary predicates only, and all of them unless there are more than its table holds. */
  lemma KernelPredicatesExact(e: Expr, k: KernelPredicate)
    requires Printable(e)
    ensures k in KernelPredicates(e) ==> Necessary(k, e)
    ensures Necessary(k, e) && k !in KernelPredicates(e) ==> |KernelPredicates(e)| == 64
  {
    hide ToKernel;
    var ps := Required(e, false);
    FilterMapMembers(ps, k);
    if k in KernelPredicates(e) {
      assert k in FilterMap(ps);
      var p :| p in ps && ToKernel(p) == Some(k);
      RequiredExact(e, false, p);
    }
    if Necessary(k, e) {
      var p :| InEvery(p, Ways(e, false)) && ToKernel(p) == Some(k);
      RequiredExact(e, false, p);
      assert p in ps;
    }
  }

  /**
   Prefilter soundness: if an expression is true of an event, whatever its latency, then every kernel
   predicate derived from the expression accepts every submission that shares the event's stable fields.
   */
  lemma KernelPrefilterSound(e: Expr, ev: Event, latency: Option<u64>, submission: EventMeta, k: KernelPredicate)
    requires Evaluate(e, ev, latency) == Ok(True) && SameStableFields(ev.meta, submission)
    requires k in KernelPredicates(e)
    ensures KernelMatches(k, submission)
  {
    FilterMapMembers(Required(e, false), k);
    assert k in FilterMap(Required(e, false));
    var p :| p in Required(e, false) && ToKernel(p) == Some(k);
    RequiredInEveryWay(e, false, p);
    var w := SomeWay(e, false, ev, latency);
    KernelAgrees(p, ev, latency, submission);
  }

  /** The whole prefilter, as run on the installed table, lets such a submission through. */
  method PrefilterNeverDropsAMatch(e: Expr, ghost ev: Event, ghost latency: Option<u64>, submission: EventMeta,
          loopFailed: bool)
    returns (accepted: bool)
    requires Evaluate(e, ev, latency) == Ok(True) && SameStableFields(ev.meta, submission)
    ensures accepted
  {
    var table := KernelPredicates(e);
    forall i | 0 <= i < |table|
      ensures KernelMatches(table[i], submission)
    {
      KernelPrefilterSound(e, ev, latency, submission, table[i]);
    }
    accepted := Prefilter(submission, table, |table|, loopFailed);
  }

  // ----- laws of three-valued evaluation -----

  /** Every field known of `ev` has the same value in `more`, and both carry the same captured data. */
  ghost predicate KnowsMore(ev: Event, latency: Option<u64>, more: Event, moreLatency: Option<u64>) {
    && (forall f :: FieldValue(f, ev, latency).Ok? && FieldValue(f, ev, latency).value.Some? ==>
                      FieldValue(f, more, moreLatency) == FieldValue(f, ev, latency))
    && SameData(ev, more)
  }

  predicate SameData(ev: Event, more: Event) {
    && more.meta.hasData == ev.meta.hasData && more.meta.payloadLen == ev.meta.payloadLen
    && (IsoTransfer(more.meta) <==> IsoTransfer(ev.meta)) && more.iso == ev.iso && more.payload == ev.payload
  }

  /** A definite answer never rests on a missing field: learning the field cannot change it. */
  lemma {:induction false} DefiniteAnswersStable(e: Expr, ev: Event, latency: Option<u64>, more: Event,
          moreLatency: Option<u64>)
    requires KnowsMore(ev, latency, more, moreLatency) && FullPayload(ev)
    requires Evaluate(e, ev, latency).Ok? && !Evaluate(e, ev, latency).value.Unknown?
    ensures Evaluate(e, more, moreLatency) == Evaluate(e, ev, latency)
  {
    match e
    case Not(inner) => DefiniteAnswersStable(inner, ev, latency, more, moreLatency);
    case Test(p) => assert FieldValue(p.field, ev, latency).Ok?;
    case All =>
    case Contains(_) =>
    case _ =>
      var a, b := e.a, e.b;
      EvaluateNeverFails(a, ev, latency);
      EvaluateNeverFails(b, ev, latency);
      EvaluateNeverFails(a, more, moreLatency);
      EvaluateNeverFails(b, more, moreLatency);
      if !Evaluate(a, ev, latency).value.Unknown? { DefiniteAnswersStable(a, ev, latency, more, moreLatency); }
      if !Evaluate(b, ev, latency).value.Unknown? { DefiniteAnswersStable(b, ev, latency, more, moreLatency); }
  }

  ghost predicate AnswersKept(ev: Event, latency: Option<u64>, more: Event, moreLatency: Option<u64>) {
    forall e: Expr :: Evaluate(e, ev, latency).Ok? && !Evaluate(e, ev, latency).value.Unknown? ==>
                        Evaluate(e, more, moreLatency) == Evaluate(e, ev, latency)
  }

  /** Every definite answer carries over exactly when every known field does. */
  lemma AnswersKeptIff(ev: Event, latency: Option<u64>, more: Event, moreLatency: Option<u64>)
    requires SameData(ev, more) && FullPayload(ev)
    ensures AnswersKept(ev, latency, more, moreLatency) <==> KnowsMore(ev, latency, more, moreLatency)
  {
    hide FieldValue; hide FullPayload;
    if KnowsMore(ev, latency, more, moreLatency) {
      forall e: Expr | Evaluate(e, ev, latency).Ok? && !Evaluate(e, ev, latency).value.Unknown?
        ensures Evaluate(e, more, moreLatency) == Evaluate(e, ev, latency)
      {
        DefiniteAnswersStable(e, ev, latency, more, moreLatency);
      }
    }
    if AnswersKept(ev, latency, more, moreLatency) {
      forall f | FieldValue(f, ev, latency).Ok? && FieldValue(f, ev, latency).value.Some?
        ensures FieldValue(f, more, moreLatency) == FieldValue(f, ev, latency)
      {
        var e := Test(Predicate(f, None, Eq, FieldValue(f, ev, latency).value.value));
        assert Evaluate(e, ev, latency) == Ok(True);
        assert Evaluate(e, more, moreLatency) == Ok(True);
      }
    }
  }

  /** Learning an event's device identity, requested length or latency never changes a definite answer. */
  lemma LearningKeepsAnswers(e: Expr, ev: Event, latency: Option<u64>, more: Event, moreLatency: Option<u64>)
    requires more == ev.(identityKnown := more.identityKnown, requestedKnown := more.requestedKnown)
    requires (ev.identityKnown ==> more.identityKnown) && (ev.requestedKnown ==> more.requestedKnown)
    requires (latency.Some? ==> moreLatency == latency) && FullPayload(ev)
    requires Evaluate(e, ev, latency).Ok? && !Evaluate(e, ev, latency).value.Unknown?
    ensures Evaluate(e, more, moreLatency) == Evaluate(e, ev, latency)
  {
    hide FromBe; hide Evaluate;
    assert KnowsMore(ev, latency, more, moreLatency);
    DefiniteAnswersStable(e, ev, latency, more, moreLatency);
  }

  // ----- latency -----

  predicate NeedsLatency(e: Expr) {
    match e
    case Test(p) => p.field.Latency?
    case Not(inner) => NeedsLatency(inner)
    case And(a, b) => NeedsLatency(a) || NeedsLatency(b)
    case Or(a, b) => NeedsLatency(a) || NeedsLatency(b)
    case _ => false
  }

  /** An expression that does not ask for latency gives the same result whatever it is. */
  lemma {:induction false} LatencyIrrelevant(e: Expr, ev: Event, latency: Option<u64>, other: Option<u64>)
    requires !NeedsLatency(e)
    ensures Evaluate(e, ev, latency) == Evaluate(e, ev, other)
  {
    match e
    case Not(inner) => LatencyIrrelevant(inner, ev, latency, other);
    case And(a, b) => LatencyIrrelevant(a, ev, latency, other); LatencyIrrelevant(b, ev, latency, other);
    case Or(a, b) => LatencyIrrelevant(a, ev, latency, other); LatencyIrrelevant(b, ev, latency, other);
    case _ =>
  }

  // ----- evaluation never runs short of payload -----

  /** The payload holds every byte the metadata promises. */
  ghost predicate FullPayload(ev: Event) {
    && ev.meta.payloadLen <= |ev.payload|
    && (IsoTransfer(ev.meta) && ev.meta.hasData != 0 ==>
          forall d :: d in ev.iso && d.length != 0 ==> d.offset + d.length <= ev.meta.payloadLen)
  }

  lemma {:induction false} EvaluateNeverFails(e: Expr, ev: Event, latency: Option<u64>)
    requires FullPayload(ev)
    ensures Evaluate(e, ev, latency).Ok?
  {
    match e
    case Not(inner) => EvaluateNeverFails(inner, ev, latency);
    case And(a, b) => EvaluateNeverFails(a, ev, latency); EvaluateNeverFails(b, ev, latency);
    case Or(a, b) => EvaluateNeverFails(a, ev, latency); EvaluateNeverFails(b, ev, latency);
    case Contains(needle) =>
      if ev.meta.hasData != 0 {
        forall r | r in CapturedRanges(ev)
          ensures Readable(ev.payload, r)
        {
          if IsoTransfer(ev.meta) {
            var i :| 0 <= i < |ev.iso| && FrameRanges(ev.iso)[i] == r;
            assert ev.iso[i] in ev.iso;
          }
        }
        ScanMeans(ev.payload, CapturedRanges(ev), needle);
      }
    case _ =>
  }
}
