/**
 What the filter language means: connectives by truth value, a two-valued reading when every field asked for is
 known, and the kernel's tests as the same tests on a submission.
 */
module Meaning {
  import opened Bytes
  import opened Records
  import opened Filter
  import Arithmetic
  import Search

  // ----- connectives -----

  /** A conjunction is true when both operands are and false when either is; otherwise it is unknown. */
  lemma AndMeans(a: Expr, b: Expr, ev: Event, latency: Option<u64>)
    requires Evaluate(a, ev, latency).Ok? && Evaluate(b, ev, latency).Ok?
    ensures Evaluate(And(a, b), ev, latency).Ok?
    ensures Evaluate(And(a, b), ev, latency) == Ok(True)
            <==> Evaluate(a, ev, latency) == Ok(True) && Evaluate(b, ev, latency) == Ok(True)
    ensures Evaluate(And(a, b), ev, latency) == Ok(False)
            <==> Evaluate(a, ev, latency) == Ok(False) || Evaluate(b, ev, latency) == Ok(False)
  {
  }

  lemma OrMeans(a: Expr, b: Expr, ev: Event, latency: Option<u64>)
    requires Evaluate(a, ev, latency).Ok? && Evaluate(b, ev, latency).Ok?
    ensures Evaluate(Or(a, b), ev, latency).Ok?
    ensures Evaluate(Or(a, b), ev, latency) == Ok(True)
            <==> Evaluate(a, ev, latency) == Ok(True) || Evaluate(b, ev, latency) == Ok(True)
    ensures Evaluate(Or(a, b), ev, latency) == Ok(False)
            <==> Evaluate(a, ev, latency) == Ok(False) && Evaluate(b, ev, latency) == Ok(False)
  {
  }

  lemma NotMeans(e: Expr, ev: Event, latency: Option<u64>)
    ensures Evaluate(Not(e), ev, latency).Ok? <==> Evaluate(e, ev, latency).Ok?
    ensures Evaluate(Not(e), ev, latency) == Ok(True) <==> Evaluate(e, ev, latency) == Ok(False)
    ensures Evaluate(Not(e), ev, latency) == Ok(False) <==> Evaluate(e, ev, latency) == Ok(True)
  {
  }

  /** A failed payload read is passed on unless the left operand has already decided. */
  lemma FailureMeans(a: Expr, b: Expr, ev: Event, latency: Option<u64>)
    ensures Evaluate(And(a, b), ev, latency).Err?
            <==> Evaluate(a, ev, latency).Err?
                 || (Evaluate(a, ev, latency) != Ok(False) && Evaluate(b, ev, latency).Err?)
    ensures Evaluate(Or(a, b), ev, latency).Err?
            <==> Evaluate(a, ev, latency).Err?
                 || (Evaluate(a, ev, latency) != Ok(True) && Evaluate(b, ev, latency).Err?)
  {
  }

  // ----- the two-valued reading -----

  predicate AsksFor(e: Expr, f: FieldName) {
    match e
    case Test(p) => p.field == f
    case Not(inner) => AsksFor(inner, f)
    case And(a, b) => AsksFor(a, f) || AsksFor(b, f)
    case Or(a, b) => AsksFor(a, f) || AsksFor(b, f)
    case _ => false
  }

  predicate SearchesFor(e: Expr, needle: seq<u8>) {
    match e
    case Contains(n) => n == needle
    case Not(inner) => SearchesFor(inner, needle)
    case And(a, b) => SearchesFor(a, needle) || SearchesFor(b, needle)
    case Or(a, b) => SearchesFor(a, needle) || SearchesFor(b, needle)
    case _ => false
  }

  /** A masked value is that of the bits the mask has (`BitAndBits`), of a value cut to 64 bits. */
  function Shown(value: int, mask: Option<u64>): int {
    if mask.None? then value else BitAnd(value % 0x1_0000_0000_0000_0000, mask.value)
  }

  /** The expression as a proposition about field values and byte strings found. */
  predicate Classical(e: Expr, value: FieldName -> int, found: seq<u8> -> bool) {
    match e
    case All => true
    case Contains(needle) => found(needle)
    case Not(inner) => !Classical(inner, value, found)
    case And(a, b) => Classical(a, value, found) && Classical(b, value, found)
    case Or(a, b) => Classical(a, value, found) || Classical(b, value, found)
    case Test(p) =>
      var v := Shown(value(p.field), p.mask);
      && (p.comparison.Eq? ==> v == p.value) && (p.comparison.Ne? ==> v != p.value)
      && (p.comparison.Lt? ==> v < p.value) && (p.comparison.Ge? ==> v >= p.value)
      && (p.comparison.Gt? ==> v > p.value) && (p.comparison.Le? ==> v <= p.value)
  }

  /** On an event that knows everything the expression asks for, it is true or false as the proposition is. */
  lemma {:induction false} ClassicalReading(e: Expr, ev: Event, latency: Option<u64>, value: FieldName -> int,
                                            found: seq<u8> -> bool)
    requires forall f :: AsksFor(e, f) ==> FieldValue(f, ev, latency) == Ok(Some(value(f)))
    requires forall n :: SearchesFor(e, n) ==> ev.meta.hasData != 0 && Search.Contains(ev, n) == Ok(found(n))
    ensures Evaluate(e, ev, latency) == Ok(if Classical(e, value, found) then True else False)
  {
    hide FieldValue; hide Search.Contains; hide BitAnd;
    match e
    case All =>
    case Test(p) =>
      assert AsksFor(e, p.field);
      TestReading(p, ev, latency, value);
    case Contains(needle) => assert SearchesFor(e, needle);
    case Not(inner) =>
      assert forall f :: AsksFor(inner, f) ==> AsksFor(e, f);
      assert forall n :: SearchesFor(inner, n) ==> SearchesFor(e, n);
      ClassicalReading(inner, ev, latency, value, found);
    case And(a, b) =>
      assert forall f :: AsksFor(a, f) || AsksFor(b, f) ==> AsksFor(e, f);
      assert forall n :: SearchesFor(a, n) || SearchesFor(b, n) ==> SearchesFor(e, n);
      ClassicalReading(a, ev, latency, value, found);
      ClassicalReading(b, ev, latency, value, found);
    case Or(a, b) =>
      assert forall f :: AsksFor(a, f) || AsksFor(b, f) ==> AsksFor(e, f);
      assert forall n :: SearchesFor(a, n) || SearchesFor(b, n) ==> SearchesFor(e, n);
      ClassicalReading(a, ev, latency, value, found);
      ClassicalReading(b, ev, latency, value, found);
  }

  lemma TestReading(p: Predicate, ev: Event, latency: Option<u64>, value: FieldName -> int)
    requires FieldValue(p.field, ev, latency) == Ok(Some(value(p.field)))
    ensures EvaluateTest(p, ev, latency) == Ok(if Classical(Test(p), value, n => false) then True else False)
  {
    hide FieldValue; hide BitAnd;
  }

  /** A test of an unknown field is unknown, and so is a search where no data was captured. */
  lemma UnknownMeans(p: Predicate, needle: seq<u8>, ev: Event, latency: Option<u64>)
    ensures Evaluate(Test(p), ev, latency) == Ok(Unknown) <==> FieldValue(p.field, ev, latency) == Ok(None)
    ensures Evaluate(Contains(needle), ev, latency) == Ok(Unknown) <==> ev.meta.hasData == 0
  {
    hide FieldValue; hide Search.Contains; hide BitAnd;
  }

  lemma {:induction false} NeedsLatencyIff(e: Expr)
    ensures NeedsLatency(e) <==> AsksFor(e, Latency)
  {
    match e
    case Not(inner) => NeedsLatencyIff(inner);
    case And(a, b) => NeedsLatencyIff(a); NeedsLatencyIff(b);
    case Or(a, b) => NeedsLatencyIff(a); NeedsLatencyIff(b);
    case _ =>
  }

  // ----- masks -----

  function Bit(x: nat, k: nat): nat { (x / Pow2(k)) % 2 }

  lemma BitAbove(x: nat, k: nat)
    ensures Bit(x, k + 1) == Bit(x / 2, k) && Bit(x, 0) == x % 2
  {
    Arithmetic.HalveThenDivide(x, Pow2(k));
  }

  /** The mask keeps a bit exactly when it has it. */
  lemma {:induction false} BitAndBits(a: nat, b: nat, k: nat)
    ensures Bit(BitAnd(a, b), k) == 1 <==> Bit(a, k) == 1 && Bit(b, k) == 1
  {
    hide Bit;
    if a == 0 || b == 0 {
      ZeroBits(k);
    } else {
      var rest := BitAnd(a / 2, b / 2);
      assert BitAnd(a, b) % 2 == (a % 2) * (b % 2) && BitAnd(a, b) / 2 == rest;
      if k == 0 {
        BitAbove(a, 0); BitAbove(b, 0); BitAbove(BitAnd(a, b), 0);
      } else {
        BitAbove(a, k - 1); BitAbove(b, k - 1); BitAbove(BitAnd(a, b), k - 1);
        BitAndBits(a / 2, b / 2, k - 1);
      }
    }
  }

  lemma ZeroBits(k: nat)
    ensures Bit(0, k) == 0
  {
  }

  // ----- the kernel's tests -----

  /** The fields the kernel can test: those that are the same at submission and completion. */
  predicate InKernel(f: FieldName) {
    f.Bus? || f.Device? || f.Vid? || f.Pid? || f.Endpoint? || f.EpNum? || f.Direction? || f.Transfer? || f.Requested?
    || f.Frames?
  }

  /** A test goes to the kernel when its field does and its value fits 64 bits; there it is the same test. */
  lemma KernelExact(p: Predicate, m: EventMeta)
    ensures ToKernel(p).Some? <==> InKernel(p.field) && 0 <= p.value < 0x1_0000_0000_0000_0000
    ensures ToKernel(p).Some? ==>
              (KernelMatches(ToKernel(p).value, m)
               <==> Evaluate(Test(p), Event(0, m, [], [], true, true), None) == Ok(True))
  {
    if ToKernel(p).Some? {
      var code := StableCode(p.field).value;
      StableField(p.field, Event(0, m, [], [], true, true), None, m);
      KernelTest(p, code, KernelField(code, m).value, m);
    }
  }

  lemma KernelTest(p: Predicate, code: u32, field: u64, m: EventMeta)
    requires ToKernel(p).Some? && StableCode(p.field) == Some(code) && KernelField(code, m) == Some(field)
    requires FieldValue(p.field, Event(0, m, [], [], true, true), None) == Ok(Some(field))
    ensures KernelMatches(ToKernel(p).value, m)
            <==> Evaluate(Test(p), Event(0, m, [], [], true, true), None) == Ok(True)
  {
    hide FieldValue; hide KernelField; hide StableCode; hide BitAnd;
    MaskAgrees(field, p.mask);
    hide Masked;
  }
}
