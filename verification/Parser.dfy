/**
 The filter parser: precedence climbing over tokens, with flat chains re-balanced so that long
 expressions stay shallow.
 */
module Parser {
  import opened Bytes
  import opened Records
  import opened Filter
  import Search

  // ----- balancing -----

  function Join2(x: Expr, y: Expr, conj: bool): Expr {
    if conj then And(x, y) else Or(x, y)
  }

  /** One round: neighbours are paired, an odd last one is kept. */
  function Pair(nodes: seq<Expr>, conj: bool): (r: seq<Expr>)
    ensures |r| == (|nodes| + 1) / 2
  {
    if |nodes| <= 1 then nodes else [Join2(nodes[0], nodes[1], conj)] + Pair(nodes[2..], conj)
  }

  function Balance(nodes: seq<Expr>, conj: bool): Expr
    requires nodes != []
    decreases |nodes|
  {
    if |nodes| == 1 then nodes[0] else Balance(Pair(nodes, conj), conj)
  }

  /** The chain read from left to right. */
  function Fold(nodes: seq<Expr>, conj: bool): Expr
    requires nodes != []
  {
    if |nodes| == 1 then nodes[0] else Join2(Fold(nodes[..|nodes| - 1], conj), nodes[|nodes| - 1], conj)
  }

  function Height(e: Expr): nat {
    match e
    case And(a, b) => 1 + Max(Height(a), Height(b))
    case Or(a, b) => 1 + Max(Height(a), Height(b))
    case Not(inner) => 1 + Height(inner)
    case _ => 0
  }

  function Tallest(nodes: seq<Expr>): nat {
    if nodes == [] then 0 else Max(Height(nodes[0]), Tallest(nodes[1..]))
  }

  function CeilLog2(n: nat): (k: nat) {
    if n <= 1 then 0 else 1 + CeilLog2((n + 1) / 2)
  }

  /** The least exponent whose power of two reaches `n`. */
  lemma {:induction false} CeilLog2Exact(n: nat)
    requires n >= 1
    ensures n <= Pow2(CeilLog2(n)) && (n >= 2 ==> Pow2(CeilLog2(n) - 1) < n)
  {
    if n >= 2 {
      CeilLog2Exact((n + 1) / 2);
    }
  }

  /** Values of a chain combine from left to right, stopping at the first that decides. */
  ghost function Combine2(x: Result<Truth>, y: Result<Truth>, conj: bool): Result<Truth> {
    if x.Err? || x.value == (if conj then False else True) then x
    else if y.Err? then y
    else Ok(if conj then x.value.And(y.value) else x.value.Or(y.value))
  }

  lemma CombineAssociative(x: Result<Truth>, y: Result<Truth>, z: Result<Truth>, conj: bool)
    ensures Combine2(Combine2(x, y, conj), z, conj) == Combine2(x, Combine2(y, z, conj), conj)
  {
  }

  lemma JoinEvaluates(a: Expr, b: Expr, conj: bool, ev: Event, latency: Option<u64>)
    ensures Evaluate(Join2(a, b, conj), ev, latency)
            == Combine2(Evaluate(a, ev, latency), Evaluate(b, ev, latency), conj)
  {
    hide EvaluateTest;
    hide Search.Contains;
    assert conj ==> Join2(a, b, conj) == And(a, b);
    assert !conj ==> Join2(a, b, conj) == Or(a, b);
  }

  /** The value of a chain, grouped to the right. */
  ghost function Chain(nodes: seq<Expr>, conj: bool, ev: Event, latency: Option<u64>): Result<Truth>
    requires nodes != []
  {
    if |nodes| == 1 then Evaluate(nodes[0], ev, latency)
    else Combine2(Evaluate(nodes[0], ev, latency), Chain(nodes[1..], conj, ev, latency), conj)
  }

  lemma {:induction false} ChainAppend(p: seq<Expr>, q: seq<Expr>, conj: bool, ev: Event, latency: Option<u64>)
    requires p != [] && q != []
    ensures Chain(p + q, conj, ev, latency) == Combine2(Chain(p, conj, ev, latency), Chain(q, conj, ev, latency), conj)
  {
    assert (p + q)[1..] == p[1..] + q;
    if |p| == 1 {
      assert (p + q)[1..] == q;
    } else {
      ChainAppend(p[1..], q, conj, ev, latency);
      CombineAssociative(Evaluate(p[0], ev, latency), Chain(p[1..], conj, ev, latency), Chain(q, conj, ev, latency),
        conj);
    }
  }

  lemma {:induction false} PairMeans(nodes: seq<Expr>, conj: bool, ev: Event, latency: Option<u64>)
    requires nodes != []
    ensures Chain(Pair(nodes, conj), conj, ev, latency) == Chain(nodes, conj, ev, latency)
    decreases |nodes|
  {
    if |nodes| >= 2 {
      var head := Join2(nodes[0], nodes[1], conj);
      JoinEvaluates(nodes[0], nodes[1], conj, ev, latency);
      assert nodes[1..][1..] == nodes[2..];
      if |nodes| > 2 {
        PairMeans(nodes[2..], conj, ev, latency);
        assert Pair(nodes, conj)[1..] == Pair(nodes[2..], conj);
        CombineAssociative(Evaluate(nodes[0], ev, latency), Evaluate(nodes[1], ev, latency),
          Chain(nodes[2..], conj, ev, latency), conj);
      }
    }
  }

  lemma {:induction false} BalanceChain(nodes: seq<Expr>, conj: bool, ev: Event, latency: Option<u64>)
    requires nodes != []
    ensures Evaluate(Balance(nodes, conj), ev, latency) == Chain(nodes, conj, ev, latency)
    decreases |nodes|
  {
    if |nodes| > 1 {
      PairMeans(nodes, conj, ev, latency);
      BalanceChain(Pair(nodes, conj), conj, ev, latency);
    }
  }

  lemma {:induction false} FoldChain(nodes: seq<Expr>, conj: bool, ev: Event, latency: Option<u64>)
    requires nodes != []
    ensures Evaluate(Fold(nodes, conj), ev, latency) == Chain(nodes, conj, ev, latency)
    decreases |nodes|
  {
    if |nodes| > 1 {
      var p, x := nodes[..|nodes| - 1], nodes[|nodes| - 1];
      FoldChain(p, conj, ev, latency);
      ChainAppend(p, [x], conj, ev, latency);
      assert p + [x] == nodes;
      JoinEvaluates(Fold(p, conj), x, conj, ev, latency);
    }
  }

  /** Balancing never changes what an expression means, on any event, failures and short circuits included. */
  lemma BalancePreservesMeaning(nodes: seq<Expr>, conj: bool, ev: Event, latency: Option<u64>)
    requires nodes != []
    ensures Evaluate(Balance(nodes, conj), ev, latency) == Evaluate(Fold(nodes, conj), ev, latency)
  {
    BalanceChain(nodes, conj, ev, latency);
    FoldChain(nodes, conj, ev, latency);
  }

  lemma {:induction false} PairHeight(nodes: seq<Expr>, conj: bool)
    ensures Tallest(Pair(nodes, conj)) <= Tallest(nodes) + 1
    decreases |nodes|
  {
    if |nodes| >= 2 {
      PairHeight(nodes[2..], conj);
      assert nodes[1..][1..] == nodes[2..];
      assert Tallest(nodes) == Max(Height(nodes[0]), Max(Height(nodes[1]), Tallest(nodes[2..])));
      assert Pair(nodes, conj)[1..] == Pair(nodes[2..], conj);
    }
  }

  /** A balanced chain is at most logarithmically taller than its tallest operand. */
  lemma {:induction false} BalanceHeight(nodes: seq<Expr>, conj: bool)
    requires nodes != []
    ensures Height(Balance(nodes, conj)) <= Tallest(nodes) + CeilLog2(|nodes|)
    decreases |nodes|
  {
    if |nodes| > 1 {
      PairHeight(nodes, conj);
      BalanceHeight(Pair(nodes, conj), conj);
    }
  }

  lemma PairStep(done: seq<Expr>, rest: seq<Expr>, conj: bool)
    requires |rest| >= 2
    ensures (done + [Join2(rest[0], rest[1], conj)]) + Pair(rest[2..], conj) == done + Pair(rest, conj)
  {
  }

  method PairRound(nodes: seq<Expr>, conj: bool) returns (next: seq<Expr>)
    ensures next == Pair(nodes, conj)
  {
    next := [];
    var i := 0;
    while i < |nodes|
      invariant 0 <= i <= |nodes|
      invariant next + Pair(nodes[i..], conj) == Pair(nodes, conj)
    {
      if i + 1 < |nodes| {
        PairStep(next, nodes[i..], conj);
        assert nodes[i..][2..] == nodes[i + 2..];
        next := next + [Join2(nodes[i], nodes[i + 1], conj)];
        i := i + 2;
      } else {
        assert Pair(nodes[i..], conj) == [nodes[i]];
        next := next + [nodes[i]];
        i := i + 1;
      }
    }
  }

  /** `balanced`: rounds of pairing until one node is left. */
  method Balanced(nodes: seq<Expr>, conj: bool) returns (r: Expr)
    requires nodes != []
    ensures r == Balance(nodes, conj)
    ensures Height(r) <= Tallest(nodes) + CeilLog2(|nodes|)
    ensures forall ev, latency :: Evaluate(r, ev, latency) == Evaluate(Fold(nodes, conj), ev, latency)
  {
    var current := nodes;
    while |current| > 1
      invariant current != [] && Balance(current, conj) == Balance(nodes, conj)
      decreases |current|
    {
      current := PairRound(current, conj);
    }
    r := current[0];
    BalanceHeight(nodes, conj);
    forall ev, latency
      ensures Evaluate(r, ev, latency) == Evaluate(Fold(nodes, conj), ev, latency)
    {
      BalancePreservesMeaning(nodes, conj, ev, latency);
    }
  }

  // ----- tokens -----

  /** A whole predicate counts as one token; `Other` is any text that starts no predicate. */
  datatype Token = OrToken | AndToken | NotToken | Open | Close | Leaf(e: Expr) | Other

  const MAX_DEPTH: nat := 128

  datatype Parsed = Parsed(e: Expr, rest: seq<Token>)

  predicate EndsConjunction(ts: seq<Token>) { ts == [] || ts[0].Close? || ts[0].OrToken? }

  function ParseOr(ts: seq<Token>, depth: nat): (r: Result<Parsed>)
    ensures r.Ok? ==> |r.value.rest| < |ts|
    decreases |ts|, 4
  {
    var p :- ParseAnd(ts, depth);
    ParseOrTail([p.e], p.rest, depth)
  }

  function ParseOrTail(nodes: seq<Expr>, ts: seq<Token>, depth: nat): (r: Result<Parsed>)
    requires nodes != []
    ensures r.Ok? ==> |r.value.rest| <= |ts|
    decreases |ts|, 3
  {
    if ts != [] && ts[0].OrToken? then
      var p :- ParseAnd(ts[1..], depth);
      ParseOrTail(nodes + [p.e], p.rest, depth)
    else Ok(Parsed(Balance(nodes, false), ts))
  }

  function ParseAnd(ts: seq<Token>, depth: nat): (r: Result<Parsed>)
    ensures r.Ok? ==> |r.value.rest| < |ts|
    decreases |ts|, 2
  {
    var p :- ParseUnary(ts, depth);
    ParseAndTail([p.e], p.rest, depth)
  }

  function ParseAndTail(nodes: seq<Expr>, ts: seq<Token>, depth: nat): (r: Result<Parsed>)
    requires nodes != []
    ensures r.Ok? ==> |r.value.rest| <= |ts|
    decreases |ts|, 1
  {
    if EndsConjunction(ts) then Ok(Parsed(Balance(nodes, true), ts))
    else
      var p :- ParseUnary(if ts[0].AndToken? then ts[1..] else ts, depth);
      ParseAndTail(nodes + [p.e], p.rest, depth)
  }

  function ParseUnary(ts: seq<Token>, depth: nat): (r: Result<Parsed>)
    ensures r.Ok? ==> |r.value.rest| < |ts|
    decreases |ts|, 0
  {
    if depth + 1 > MAX_DEPTH || ts == [] then Err
    else if ts[0].NotToken? then
      var p :- ParseUnary(ts[1..], depth + 1);
      Ok(Parsed(Not(p.e), p.rest))
    else if ts[0].Open? then
      var p :- ParseOr(ts[1..], depth + 1);
      if p.rest != [] && p.rest[0].Close? then Ok(Parsed(p.e, p.rest[1..])) else Err
    else if ts[0].Leaf? then Ok(Parsed(ts[0].e, ts[1..]))
    else Err
  }

  /** `Filter::parse` from tokens on. */
  function Parse(ts: seq<Token>): Result<Expr> {
    if ts == [] then Ok(All) else
    var p :- ParseOr(ts, 0);
    if p.rest == [] then Ok(p.e) else Err
  }

  // ----- the parser object -----

  class TokenParser {
    const tokens: seq<Token>
    var at: nat
    var depth: nat

    constructor (tokens: seq<Token>)
      ensures this.tokens == tokens && at == 0 && depth == 0
    {
      this.tokens, at, depth := tokens, 0, 0;
    }

    predicate Peek(t: Token)
      reads this
    {
      at < |tokens| && tokens[at] == t
    }

    method Accept(t: Token) returns (taken: bool)
      requires at <= |tokens|
      modifies this`at
      ensures taken == old(Peek(t)) && at == (if taken then old(at) + 1 else old(at)) && at <= |tokens|
    {
      taken := Peek(t);
      if taken { at := at + 1; }
    }

    method Or() returns (r: Result<Expr>)
      requires at <= |tokens|
      modifies this`at, this`depth
      ensures old(at) <= at <= |tokens|
      ensures r.Ok? <==> ParseOr(tokens[old(at)..], old(depth)).Ok?
      ensures r.Ok? ==>
              ParseOr(tokens[old(at)..], old(depth)) == Ok(Parsed(r.value, tokens[at..]))
              && depth == old(depth)
      decreases |tokens| - at, 4
    {
      hide ParseAnd; hide Balance; hide Fold; hide Evaluate; hide Height; hide Tallest; hide CeilLog2;
      var first :- And();
      var nodes := [first];
      while Peek(OrToken)
        invariant old(at) <= at <= |tokens| && depth == old(depth) && nodes != []
        invariant ParseOr(tokens[old(at)..], old(depth)) == ParseOrTail(nodes, tokens[at..], depth)
        decreases |tokens| - at
      {
        assert tokens[at..][1..] == tokens[at + 1..];
        at := at + 1;
        var next :- And();
        nodes := nodes + [next];
      }
      var e := Balanced(nodes, false);
      return Ok(e);
    }

    method And() returns (r: Result<Expr>)
      requires at <= |tokens|
      modifies this`at, this`depth
      ensures old(at) <= at <= |tokens|
      ensures r.Ok? <==> ParseAnd(tokens[old(at)..], old(depth)).Ok?
      ensures r.Ok? ==>
              ParseAnd(tokens[old(at)..], old(depth)) == Ok(Parsed(r.value, tokens[at..]))
              && depth == old(depth)
      decreases |tokens| - at, 2
    {
      var first :- Unary();
      var nodes := [first];
      while at < |tokens| && !tokens[at].Close? && !tokens[at].OrToken?
        invariant old(at) <= at <= |tokens| && depth == old(depth) && nodes != []
        invariant ParseAnd(tokens[old(at)..], old(depth)) == ParseAndTail(nodes, tokens[at..], depth)
        decreases |tokens| - at
      {
        ghost var from := tokens[at..];
        var explicit := Accept(AndToken);
        assert tokens[at..] == if explicit then from[1..] else from;
        var next :- Unary();
        nodes := nodes + [next];
      }
      var e := Balanced(nodes, true);
      return Ok(e);
    }

    method Unary() returns (r: Result<Expr>)
      requires at <= |tokens|
      modifies this`at, this`depth
      ensures old(at) <= at <= |tokens|
      ensures r.Ok? <==> ParseUnary(tokens[old(at)..], old(depth)).Ok?
      ensures r.Ok? ==>
              ParseUnary(tokens[old(at)..], old(depth)) == Ok(Parsed(r.value, tokens[at..]))
              && depth == old(depth)
      ensures r.Ok? ==> at > old(at)
      decreases |tokens| - at, 0
    {
      depth := depth + 1;
      if depth > MAX_DEPTH { return Err; }
      var node;
      if at == |tokens| { return Err; }
      assert tokens[at..][1..] == tokens[at + 1..];
      if tokens[at].NotToken? {
        at := at + 1;
        var inner :- Unary();
        node := Filter.Not(inner);
      } else if tokens[at].Open? {
        at := at + 1;
        node :- Or();
        ghost var from := tokens[at..];
        var closed := Accept(Close);
        if !closed { return Err; }
        assert tokens[at..] == from[1..];
      } else if tokens[at].Leaf? {
        node := tokens[at].e;
        at := at + 1;
      } else {
        return Err;
      }
      depth := depth - 1;
      return Ok(node);
    }
  }

  method ParseTokens(tokens: seq<Token>) returns (r: Result<Expr>)
    ensures r == Parse(tokens)
  {
    if tokens == [] { return Ok(All); }
    var parser := new TokenParser(tokens);
    assert tokens[0..] == tokens;
    var e :- parser.Or();
    if parser.at < |tokens| { return Err; }
    return Ok(e);
  }
}
