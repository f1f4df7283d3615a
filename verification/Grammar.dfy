/**
 The filter grammar apart from the parser: surface trees, the tokens they are spelled with, and what they mean. The
 parser accepts exactly the spellings of trees within the nesting limit, and gives each its meaning.
 */
module Grammar {
  import opened Bytes
  import opened Records
  import opened Filter
  import opened Parser

  // ----- surface syntax -----

  /** A predicate, a negation, or an alternative in parentheses. */
  datatype Unary = Atom(e: Expr) | Neg(inner: Unary) | Group(body: Alternative)

  /** Operands side by side, each joined to those before it by `and` or by nothing. */
  datatype Conjunction = One(only: Unary) | Then(before: Conjunction, explicit: bool, last: Unary)

  datatype Alternative = Just(sole: Conjunction) | OrElse(left: Alternative, right: Conjunction)

  function UnaryText(u: Unary): (ts: seq<Token>)
    ensures ts != [] && (ts[0].NotToken? || ts[0].Open? || ts[0].Leaf?)
  {
    match u
    case Atom(e) => [Leaf(e)]
    case Neg(inner) => [NotToken] + UnaryText(inner)
    case Group(body) => [Open] + (AlternativeText(body) + [Close])
  }

  function ConjunctionText(c: Conjunction): seq<Token> {
    match c
    case One(u) => UnaryText(u)
    case Then(before, explicit, u) => ConjunctionText(before) + ((if explicit then [AndToken] else []) + UnaryText(u))
  }

  function AlternativeText(a: Alternative): seq<Token> {
    match a
    case Just(c) => ConjunctionText(c)
    case OrElse(left, c) => AlternativeText(left) + ([OrToken] + ConjunctionText(c))
  }

  /** `not` binds tightest, then conjunction, then `or`; chains group to the left. */
  function UnaryMeans(u: Unary): Expr {
    match u
    case Atom(e) => e
    case Neg(inner) => Filter.Not(UnaryMeans(inner))
    case Group(body) => AlternativeMeans(body)
  }

  function ConjunctionMeans(c: Conjunction): Expr {
    match c
    case One(u) => UnaryMeans(u)
    case Then(before, _, u) => Filter.And(ConjunctionMeans(before), UnaryMeans(u))
  }

  function AlternativeMeans(a: Alternative): Expr {
    match a
    case Just(c) => ConjunctionMeans(c)
    case OrElse(left, c) => Filter.Or(AlternativeMeans(left), ConjunctionMeans(c))
  }

  /** Negations, parentheses and operands inside each other. */
  function UnaryDepth(u: Unary): nat {
    match u
    case Atom(_) => 1
    case Neg(inner) => 1 + UnaryDepth(inner)
    case Group(body) => 1 + AlternativeDepth(body)
  }

  function ConjunctionDepth(c: Conjunction): nat {
    match c
    case One(u) => UnaryDepth(u)
    case Then(before, _, u) => Max(ConjunctionDepth(before), UnaryDepth(u))
  }

  function AlternativeDepth(a: Alternative): nat {
    match a
    case Just(c) => ConjunctionDepth(c)
    case OrElse(left, c) => Max(AlternativeDepth(left), ConjunctionDepth(c))
  }

  // ----- same meaning -----

  ghost predicate Same(e: Expr, f: Expr) {
    forall ev, latency :: Evaluate(e, ev, latency) == Evaluate(f, ev, latency)
  }

  ghost predicate ChainSame(nodes: seq<Expr>, conj: bool, e: Expr)
    requires nodes != []
  {
    forall ev, latency :: Chain(nodes, conj, ev, latency) == Evaluate(e, ev, latency)
  }

  lemma BalanceSame(nodes: seq<Expr>, conj: bool, e: Expr)
    requires nodes != [] && ChainSame(nodes, conj, e)
    ensures Same(Balance(nodes, conj), e)
  {
    forall ev, latency
      ensures Evaluate(Balance(nodes, conj), ev, latency) == Evaluate(e, ev, latency)
    {
      BalanceChain(nodes, conj, ev, latency);
    }
  }

  lemma OneSame(f: Expr, conj: bool, e: Expr)
    requires Same(f, e)
    ensures ChainSame([f], conj, e)
  {
    hide Evaluate;
  }

  lemma ChainSameAppend(nodes: seq<Expr>, conj: bool, a: Expr, f: Expr, b: Expr)
    requires nodes != [] && ChainSame(nodes, conj, a) && Same(f, b)
    ensures ChainSame(nodes + [f], conj, Join2(a, b, conj))
  {
    forall ev, latency
      ensures Chain(nodes + [f], conj, ev, latency) == Evaluate(Join2(a, b, conj), ev, latency)
    {
      ChainAppend(nodes, [f], conj, ev, latency);
      JoinEvaluates(a, b, conj, ev, latency);
    }
  }

  // ----- every spelling is parsed -----

  lemma NotReads(ts: seq<Token>, depth: nat)
    ensures ParseUnary([NotToken] + ts, depth)
            == if depth + 1 > MAX_DEPTH || ParseUnary(ts, depth + 1).Err? then Err
               else Ok(Parsed(Filter.Not(ParseUnary(ts, depth + 1).value.e), ParseUnary(ts, depth + 1).value.rest))
  {
    assert ([NotToken] + ts)[1..] == ts;
  }

  lemma GroupReads(ts: seq<Token>, depth: nat)
    ensures var p := ParseOr(ts, depth + 1);
            ParseUnary([Open] + ts, depth)
            == if depth + 1 > MAX_DEPTH || p.Err? || p.value.rest == [] || !p.value.rest[0].Close? then Err
               else Ok(Parsed(p.value.e, p.value.rest[1..]))
  {
    hide ParseOr;
    assert ([Open] + ts)[1..] == ts;
  }

  lemma LeafReads(e: Expr, ts: seq<Token>, depth: nat)
    ensures ParseUnary([Leaf(e)] + ts, depth) == if depth + 1 > MAX_DEPTH then Err else Ok(Parsed(e, ts))
  {
    assert ([Leaf(e)] + ts)[1..] == ts;
  }

  lemma SameAs(f: Expr, g: Expr, e: Expr)
    ensures Same(e, e)
    ensures f == Filter.Not(g) && Same(g, e) ==> Same(f, Filter.Not(e))
  {
  }

  /** Read as a single operand. */
  lemma {:induction false} UnaryParses(u: Unary, ts: seq<Token>, depth: nat) returns (f: Expr)
    ensures if depth + UnaryDepth(u) <= MAX_DEPTH
            then ParseUnary(UnaryText(u) + ts, depth) == Ok(Parsed(f, ts)) && Same(f, UnaryMeans(u))
            else ParseUnary(UnaryText(u) + ts, depth).Err?
    decreases u
  {
    hide Same; hide Evaluate; hide Balance; hide ParseOr; hide ParseUnary;
    match u
    case Atom(e) =>
      f := e;
      SameAs(e, e, e);
      LeafReads(e, ts, depth);
    case Neg(inner) =>
      var g := UnaryParses(inner, ts, depth + 1);
      assert UnaryText(u) + ts == [NotToken] + (UnaryText(inner) + ts);
      NotReads(UnaryText(inner) + ts, depth);
      f := Filter.Not(g);
      SameAs(f, g, UnaryMeans(inner));
    case Group(body) =>
      f := AlternativeParses(body, [Close] + ts, depth + 1);
      assert UnaryText(u) + ts == [Open] + (AlternativeText(body) + ([Close] + ts));
      GroupReads(AlternativeText(body) + ([Close] + ts), depth);
      assert ([Close] + ts)[1..] == ts;
  }

  lemma Joined(nodes: seq<Expr>, explicit: bool, text: seq<Token>, depth: nat)
    requires nodes != [] && text != [] && (text[0].NotToken? || text[0].Open? || text[0].Leaf?)
    ensures var p := ParseUnary(text, depth);
            ParseAndTail(nodes, (if explicit then [AndToken] else []) + text, depth)
            == if p.Err? then Err else ParseAndTail(nodes + [p.value.e], p.value.rest, depth)
  {
    hide ParseUnary; hide Balance;
    assert ([AndToken] + text)[1..] == text;
    assert [] + text == text;
  }

  /** Read as the beginning of a conjunction: the operands so far, with the rest still to come. */
  lemma {:induction false} ConjunctionParses(c: Conjunction, ts: seq<Token>, depth: nat) returns (nodes: seq<Expr>)
    ensures nodes != []
    ensures if depth + ConjunctionDepth(c) <= MAX_DEPTH
            then ParseAnd(ConjunctionText(c) + ts, depth) == ParseAndTail(nodes, ts, depth)
                 && ChainSame(nodes, true, ConjunctionMeans(c))
            else ParseAnd(ConjunctionText(c) + ts, depth).Err?
    decreases c
  {
    hide Same; hide Evaluate; hide Balance; hide ParseUnary; hide ChainSame; hide ParseAndTail;
    match c
    case One(u) =>
      var f := UnaryParses(u, ts, depth);
      nodes := [f];
      if depth + ConjunctionDepth(c) <= MAX_DEPTH { OneSame(f, true, UnaryMeans(u)); }
    case Then(before, explicit, u) =>
      var mark := if explicit then [AndToken] else [];
      var text := UnaryText(u) + ts;
      var operands := ConjunctionParses(before, mark + text, depth);
      var f := UnaryParses(u, ts, depth);
      Regrouped(ConjunctionText(before), mark, UnaryText(u), ts);
      Joined(operands, explicit, text, depth);
      if depth + ConjunctionDepth(c) <= MAX_DEPTH {
        ChainSameAppend(operands, true, ConjunctionMeans(before), f, UnaryMeans(u));
      }
      nodes := operands + [f];
  }

  lemma Regrouped<T>(a: seq<T>, b: seq<T>, c: seq<T>, d: seq<T>)
    ensures (a + (b + c)) + d == a + (b + (c + d))
  {
  }

  lemma ConjunctionEnds(nodes: seq<Expr>, ts: seq<Token>, depth: nat)
    requires nodes != [] && EndsConjunction(ts)
    ensures ParseAndTail(nodes, ts, depth) == Ok(Parsed(Balance(nodes, true), ts))
  {
  }

  /** Read as the beginning of an alternative. */
  lemma {:induction false} AlternativeOperands(a: Alternative, ts: seq<Token>, depth: nat) returns (nodes: seq<Expr>)
    requires EndsConjunction(ts)
    ensures nodes != []
    ensures if depth + AlternativeDepth(a) <= MAX_DEPTH
            then ParseOr(AlternativeText(a) + ts, depth) == ParseOrTail(nodes, ts, depth)
                 && ChainSame(nodes, false, AlternativeMeans(a))
            else ParseOr(AlternativeText(a) + ts, depth).Err?
    decreases a, 0
  {
    hide ChainSame; hide Same; hide Balance; hide Evaluate; hide ParseAnd; hide ParseAndTail;
    match a
    case Just(c) =>
      var operands := ConjunctionParses(c, ts, depth);
      ConjunctionEnds(operands, ts, depth);
      if depth + AlternativeDepth(a) <= MAX_DEPTH {
        BalanceSame(operands, true, ConjunctionMeans(c));
        OneSame(Balance(operands, true), false, ConjunctionMeans(c));
      }
      nodes := [Balance(operands, true)];
    case OrElse(left, c) =>
      var more := [OrToken] + (ConjunctionText(c) + ts);
      var before := AlternativeOperands(left, more, depth);
      var operands := ConjunctionParses(c, ts, depth);
      ConjunctionEnds(operands, ts, depth);
      Regrouped(AlternativeText(left), [OrToken], ConjunctionText(c), ts);
      assert more[1..] == ConjunctionText(c) + ts;
      if depth + AlternativeDepth(a) <= MAX_DEPTH {
        BalanceSame(operands, true, ConjunctionMeans(c));
        ChainSameAppend(before, false, AlternativeMeans(left), Balance(operands, true), ConjunctionMeans(c));
      }
      nodes := before + [Balance(operands, true)];
  }

  lemma {:induction false} AlternativeParses(a: Alternative, ts: seq<Token>, depth: nat) returns (f: Expr)
    requires ts == [] || ts[0].Close?
    ensures if depth + AlternativeDepth(a) <= MAX_DEPTH
            then ParseOr(AlternativeText(a) + ts, depth) == Ok(Parsed(f, ts)) && Same(f, AlternativeMeans(a))
            else ParseOr(AlternativeText(a) + ts, depth).Err?
    decreases a, 1
  {
    var nodes := AlternativeOperands(a, ts, depth);
    f := Balance(nodes, false);
    if depth + AlternativeDepth(a) <= MAX_DEPTH { BalanceSame(nodes, false, AlternativeMeans(a)); }
  }

  // ----- everything parsed is a spelling -----

  /** What was read as one operand spells one, and what is left follows it. */
  lemma {:induction false} UnaryIsSpelled(ts: seq<Token>, depth: nat) returns (u: Unary)
    requires ParseUnary(ts, depth).Ok?
    ensures ts == UnaryText(u) + ParseUnary(ts, depth).value.rest && depth + UnaryDepth(u) <= MAX_DEPTH
    decreases |ts|, 0
  {
    hide Balance; hide ParseAnd;
    if ts[0].NotToken? {
      var inner := UnaryIsSpelled(ts[1..], depth + 1);
      u := Neg(inner);
    } else if ts[0].Open? {
      var body := AlternativeIsSpelled(ts[1..], depth + 1);
      var p := ParseOr(ts[1..], depth + 1).value;
      u := Group(body);
      assert p.rest == [Close] + p.rest[1..];
      assert ts == [Open] + ts[1..];
    } else {
      u := Atom(ts[0].e);
    }
  }

  lemma {:induction false} ConjunctionIsSpelled(ts: seq<Token>, depth: nat) returns (c: Conjunction)
    requires ParseAnd(ts, depth).Ok?
    ensures ts == ConjunctionText(c) + ParseAnd(ts, depth).value.rest && depth + ConjunctionDepth(c) <= MAX_DEPTH
    decreases |ts|, 2
  {
    hide ParseUnary; hide ParseAndTail;
    var u := UnaryIsSpelled(ts, depth);
    var p := ParseUnary(ts, depth).value;
    c := RestOfConjunction(One(u), [p.e], p.rest, depth);
  }

  /** From the operands so far to the whole conjunction. */
  lemma {:induction false} RestOfConjunction(before: Conjunction, nodes: seq<Expr>, ts: seq<Token>, depth: nat)
    returns (c: Conjunction)
    requires nodes != [] && ParseAndTail(nodes, ts, depth).Ok? && depth + ConjunctionDepth(before) <= MAX_DEPTH
    ensures ConjunctionText(before) + ts == ConjunctionText(c) + ParseAndTail(nodes, ts, depth).value.rest
    ensures depth + ConjunctionDepth(c) <= MAX_DEPTH
    decreases |ts|, 1
  {
    hide ParseUnary; hide Balance;
    if EndsConjunction(ts) {
      c := before;
    } else {
      var explicit := ts[0].AndToken?;
      var mark, text := if explicit then [AndToken] else [], if explicit then ts[1..] else ts;
      assert ts == mark + text;
      var u := UnaryIsSpelled(text, depth);
      var p := ParseUnary(text, depth).value;
      var more := Then(before, explicit, u);
      Regrouped(ConjunctionText(before), mark, UnaryText(u), p.rest);
      c := RestOfConjunction(more, nodes + [p.e], p.rest, depth);
    }
  }

  lemma {:induction false} AlternativeIsSpelled(ts: seq<Token>, depth: nat) returns (a: Alternative)
    requires ParseOr(ts, depth).Ok?
    ensures ts == AlternativeText(a) + ParseOr(ts, depth).value.rest && depth + AlternativeDepth(a) <= MAX_DEPTH
    decreases |ts|, 4
  {
    hide ParseAnd; hide ParseOrTail;
    var c := ConjunctionIsSpelled(ts, depth);
    var p := ParseAnd(ts, depth).value;
    a := RestOfAlternative(Just(c), [p.e], p.rest, depth);
  }

  lemma {:induction false} RestOfAlternative(left: Alternative, nodes: seq<Expr>, ts: seq<Token>, depth: nat)
    returns (a: Alternative)
    requires nodes != [] && ParseOrTail(nodes, ts, depth).Ok? && depth + AlternativeDepth(left) <= MAX_DEPTH
    ensures AlternativeText(left) + ts == AlternativeText(a) + ParseOrTail(nodes, ts, depth).value.rest
    ensures depth + AlternativeDepth(a) <= MAX_DEPTH
    decreases |ts|, 3
  {
    hide ParseAnd; hide Balance;
    if ts != [] && ts[0].OrToken? {
      var c := ConjunctionIsSpelled(ts[1..], depth);
      var p := ParseAnd(ts[1..], depth).value;
      assert ts == [OrToken] + ts[1..];
      Regrouped(AlternativeText(left), [OrToken], ConjunctionText(c), p.rest);
      a := RestOfAlternative(OrElse(left, c), nodes + [p.e], p.rest, depth);
    } else {
      a := left;
    }
  }

  // ----- the grammar -----

  ghost predicate Spells(ts: seq<Token>, a: Alternative) { AlternativeText(a) == ts && AlternativeDepth(a) <= 128 }

  /** A text is accepted exactly when it is empty or spells a tree of at most 128 levels. */
  lemma GrammarExact(ts: seq<Token>)
    ensures Parser.Parse(ts).Ok? <==> ts == [] || exists a :: Spells(ts, a)
  {
    hide ParseOr;
    if ts != [] && Parser.Parse(ts).Ok? {
      var a := AlternativeIsSpelled(ts, 0);
      assert AlternativeText(a) + [] == AlternativeText(a);
      assert Spells(ts, a);
    }
    if a :| Spells(ts, a) {
      if ts != [] { MeaningExact(ts, a); }
    }
  }

  /** And then it means what the tree means; the empty text means everything. */
  lemma MeaningExact(ts: seq<Token>, a: Alternative)
    requires Spells(ts, a)
    ensures Parser.Parse(ts).Ok? && Same(Parser.Parse(ts).value, AlternativeMeans(a)) && Parser.Parse([]) == Ok(All)
  {
    hide ParseOr; hide Same;
    var f := AlternativeParses(a, [], 0);
    assert AlternativeText(a) + [] == AlternativeText(a);
    NotEmpty(a);
  }

  lemma {:induction false} NotEmpty(a: Alternative)
    ensures AlternativeText(a) != []
  {
    match a
    case Just(c) => ConjunctionNotEmpty(c);
    case OrElse(left, c) =>
  }

  lemma {:induction false} ConjunctionNotEmpty(c: Conjunction)
    ensures ConjunctionText(c) != []
  {
  }

  // ----- printing -----

  /**
   The expression as tokens with no more parentheses than precedence needs: at level 0 anything may
   stand, at level 1 an alternative needs parentheses, at level 2 a conjunction does too.
   */
  function Print(e: Expr, level: nat): seq<Token> {
    match e
    case Or(a, b) =>
      var text := Print(a, 0) + [OrToken] + Print(b, 1);
      if level > 0 then [Open] + text + [Close] else text
    case And(a, b) =>
      var text := Print(a, 1) + [AndToken] + Print(b, 2);
      if level > 1 then [Open] + text + [Close] else text
    case Not(inner) => [NotToken] + Print(inner, 2)
    case _ => [Leaf(e)]
  }

  /** How deep the parser's unary calls nest on that text. */
  function Nesting(e: Expr, level: nat): nat {
    match e
    case Or(a, b) =>
      var inside := Max(Nesting(a, 0), Nesting(b, 1));
      if level > 0 then 1 + inside else inside
    case And(a, b) =>
      var inside := Max(Nesting(a, 1), Nesting(b, 2));
      if level > 1 then 1 + inside else inside
    case Not(inner) => 1 + Nesting(inner, 2)
    case _ => 1
  }

  // The tree printed: its three readings call each other on the same expression in an order that depends on its kind.
  function AlternativeRank(e: Expr): nat { if e.Or? then 0 else if e.And? then 1 else 2 }
  function ConjunctionRank(e: Expr): nat { if e.Or? then 2 else if e.And? then 0 else 1 }
  function UnaryRank(e: Expr): nat { if e.Or? then 1 else if e.And? then 2 else 0 }

  function AlternativeOf(e: Expr): Alternative
    decreases e, AlternativeRank(e)
  {
    if e.Or? then OrElse(AlternativeOf(e.a), ConjunctionOf(e.b)) else Just(ConjunctionOf(e))
  }

  function ConjunctionOf(e: Expr): Conjunction
    decreases e, ConjunctionRank(e)
  {
    if e.And? then Then(ConjunctionOf(e.a), true, UnaryOf(e.b)) else One(UnaryOf(e))
  }

  function UnaryOf(e: Expr): Unary
    decreases e, UnaryRank(e)
  {
    if e.Not? then Neg(UnaryOf(e.e)) else if e.And? || e.Or? then Group(AlternativeOf(e)) else Atom(e)
  }

  lemma {:induction false} AlternativePrints(e: Expr)
    ensures var a := AlternativeOf(e);
            AlternativeText(a) == Print(e, 0) && AlternativeDepth(a) == Nesting(e, 0) && AlternativeMeans(a) == e
    decreases e, AlternativeRank(e)
  {
    hide ConjunctionOf; hide ConjunctionText; hide ConjunctionDepth; hide ConjunctionMeans;
    if e.Or? {
      AlternativePrints(e.a);
      ConjunctionPrints(e.b);
    } else {
      ConjunctionPrints(e);
    }
  }

  lemma {:induction false} ConjunctionPrints(e: Expr)
    ensures var c := ConjunctionOf(e);
            ConjunctionText(c) == Print(e, 1) && ConjunctionDepth(c) == Nesting(e, 1) && ConjunctionMeans(c) == e
    decreases e, ConjunctionRank(e)
  {
    hide UnaryOf; hide UnaryText; hide UnaryDepth; hide UnaryMeans;
    if e.And? {
      ConjunctionPrints(e.a);
      UnaryPrints(e.b);
    } else {
      UnaryPrints(e);
    }
  }

  lemma {:induction false} UnaryPrints(e: Expr)
    ensures var u := UnaryOf(e); UnaryText(u) == Print(e, 2) && UnaryDepth(u) == Nesting(e, 2) && UnaryMeans(u) == e
    decreases e, UnaryRank(e)
  {
    hide AlternativeOf; hide AlternativeText; hide AlternativeDepth; hide AlternativeMeans;
    if e.Not? {
      UnaryPrints(e.e);
    } else if e.And? || e.Or? {
      AlternativePrints(e);
    }
  }

  /**
   Parsing inverts printing: text written with only the parentheses that precedence requires is
   accepted exactly when its nesting is within the limit, and then means what was printed.
   */
  lemma PrintedParses(e: Expr)
    ensures Parser.Parse(Print(e, 0)).Ok? <==> Nesting(e, 0) <= MAX_DEPTH
    ensures Parser.Parse(Print(e, 0)).Ok? ==> Same(Parser.Parse(Print(e, 0)).value, e)
  {
    hide ParseOr; hide Same;
    AlternativePrints(e);
    var a := AlternativeOf(e);
    NotEmpty(a);
    var f := AlternativeParses(a, [], 0);
    assert Print(e, 0) + [] == Print(e, 0);
  }
}
