/** Which operator binds tighter, and to the left: read off the tokens, with the six groups of operators
    written out. */
module ExpressionOrder {
  import opened Expression
  import opened ExpressionTrees

  /** The binary operators, loosest group first. */
  const GROUPS: seq<set<Token>> := [
    {OrOr},
    {AndAnd},
    {EqEq, NotEq},
    {Ge, Le, Gt, Lt, In},
    {Plus, Minus},
    {Star, Slash}
  ]

  /** The value of an operator on two values, left one first. */
  function Applied<V>(host: Host<V>, op: Token, x: V, y: V): V {
    if op == OrOr then host.bool2v(host.truthy(x) || host.truthy(y))
    else if op == AndAnd then host.bool2v(host.truthy(x) && host.truthy(y))
    else host.operate(op, x, y)
  }

  /** The operator does not need its right operand. */
  predicate Skips<V>(host: Host<V>, op: Token, x: V) {
    (op == OrOr && host.truthy(x)) || (op == AndAnd && !host.truthy(x))
  }

  /** A literal token with a value. */
  predicate Operand<V(==)>(host: Host<V>, token: Token, x: V) {
    (token.True? || token.False? || token.Null? || token.Number? || token.Text?) && host.literal(token) == Ok(x)
  }

  lemma GroupIsLevel(op: Token, g: nat)
    requires g < |GROUPS| && op in GROUPS[g]
    ensures OpLevel(op) == g + 1
  {
  }

  /** A tree that prints to these tokens as an operand of level `k`, and whose value nothing decides early. */
  predicate Shows<V(==)>(host: Host<V>, t: Tree, k: nat, ts: seq<Token>, v: V) {
    WellFormed(t) && k <= Level(t) && Print(t, k) == ts && Meaning(host, t) == Ok(v) && !Decided(host, t)
  }

  lemma ShownValue<V>(host: Host<V>, t: Tree, ts: seq<Token>, v: V)
    requires Shows(host, t, 1, ts, v)
    ensures Evaluate(host, ts) == Ok(v)
  {
    hide Evaluate, WellFormed, Print, Meaning, Decided;
    EvaluatesIff(host, t);
  }

  lemma LiteralShows<V>(host: Host<V>, token: Token, x: V, k: nat)
    requires Operand(host, token, x) && k <= UNARY
    ensures Shows(host, Literal(token), k, [token], x)
  {
  }

  lemma PrefixShows<V>(host: Host<V>, prefix: Token, token: Token, x: V, k: nat) returns (t: Tree)
    requires Operand(host, token, x) && k <= UNARY && (prefix == Bang || prefix == Minus)
    ensures Shows(host, t, k, [prefix, token], if prefix == Bang then host.bool2v(!host.truthy(x)) else host.negate(x))
  {
    t := if prefix == Bang then Not(Literal(token)) else Negate(Literal(token));
    LiteralShows(host, token, x, UNARY);
    Unwrapped(t, k);
  }

  lemma BinaryShows<V>(host: Host<V>, op: Token, g: nat, l: Tree, ls: seq<Token>, x: V, r: Tree, rs: seq<Token>, y: V, k: nat)
    requires g < |GROUPS| && op in GROUPS[g] && k <= g + 1 && !Skips(host, op, x)
    requires Shows(host, l, g + 1, ls, x) && Shows(host, r, g + 2, rs, y)
    ensures Shows(host, Binary(op, l, r), k, ls + [op] + rs, Applied(host, op, x, y))
  {
    GroupIsLevel(op, g);
    var t := Binary(op, l, r);
    BinaryMeans(host, op, l, x, r, y);
    hide OpLevel, Print, Meaning, Decided, Skips, Applied;
    BareOf(t);
    Unwrapped(t, k);
  }

  lemma BinaryMeans<V>(host: Host<V>, op: Token, l: Tree, x: V, r: Tree, y: V)
    requires Meaning(host, l) == Ok(x) && Meaning(host, r) == Ok(y) && !Decided(host, l) && !Decided(host, r)
    requires !Skips(host, op, x)
    ensures Meaning(host, Binary(op, l, r)) == Ok(Applied(host, op, x, y)) && !Decided(host, Binary(op, l, r))
  {
  }

  // ----- Precedence and order ----------------------------------------------

  /** One operator takes its operands in order. */
  lemma TwoOperands<V>(host: Host<V>, a: Token, x: V, op: Token, g: nat, b: Token, y: V)
    requires Operand(host, a, x) && Operand(host, b, y)
    requires g < |GROUPS| && op in GROUPS[g] && !Skips(host, op, x)
    ensures Evaluate(host, [a, op, b]) == Ok(Applied(host, op, x, y))
  {
    hide Shows, Evaluate, Skips, Applied, Operand;
    LiteralShows(host, a, x, g + 1);
    LiteralShows(host, b, y, g + 2);
    BinaryShows(host, op, g, Literal(a), [a], x, Literal(b), [b], y, 1);
    assert [a] + [op] + [b] == [a, op, b];
    ShownValue(host, Binary(op, Literal(a), Literal(b)), [a, op, b], Applied(host, op, x, y));
  }

  lemma RightFirst<V>(host: Host<V>, a: Token, x: V, op1: Token, g1: nat, b: Token, y: V, op2: Token, g2: nat, c: Token, z: V)
    requires Operand(host, a, x) && Operand(host, b, y) && Operand(host, c, z)
    requires g1 < g2 < |GROUPS| && op1 in GROUPS[g1] && op2 in GROUPS[g2]
    requires !Skips(host, op1, x) && !Skips(host, op2, y)
    ensures Evaluate(host, [a, op1, b, op2, c]) == Ok(Applied(host, op1, x, Applied(host, op2, y, z)))
  {
    hide Shows, Evaluate, Skips, Applied, Operand;
    LiteralShows(host, a, x, g1 + 1);
    LiteralShows(host, b, y, g2 + 1);
    LiteralShows(host, c, z, g2 + 2);
    var r := Binary(op2, Literal(b), Literal(c));
    BinaryShows(host, op2, g2, Literal(b), [b], y, Literal(c), [c], z, g1 + 2);
    BinaryShows(host, op1, g1, Literal(a), [a], x, r, [b] + [op2] + [c], Applied(host, op2, y, z), 1);
    assert [a] + [op1] + ([b] + [op2] + [c]) == [a, op1, b, op2, c];
    ShownValue(host, Binary(op1, Literal(a), r), [a, op1, b, op2, c], Applied(host, op1, x, Applied(host, op2, y, z)));
  }

  lemma LeftFirst<V>(host: Host<V>, a: Token, x: V, op1: Token, g1: nat, b: Token, y: V, op2: Token, g2: nat, c: Token, z: V)
    requires Operand(host, a, x) && Operand(host, b, y) && Operand(host, c, z)
    requires g2 <= g1 < |GROUPS| && op1 in GROUPS[g1] && op2 in GROUPS[g2]
    requires !Skips(host, op1, x) && !Skips(host, op2, Applied(host, op1, x, y))
    ensures Evaluate(host, [a, op1, b, op2, c]) == Ok(Applied(host, op2, Applied(host, op1, x, y), z))
  {
    hide Shows, Evaluate, Skips, Applied, Operand;
    LiteralShows(host, a, x, g1 + 1);
    LiteralShows(host, b, y, g1 + 2);
    LiteralShows(host, c, z, g2 + 2);
    var l := Binary(op1, Literal(a), Literal(b));
    BinaryShows(host, op1, g1, Literal(a), [a], x, Literal(b), [b], y, g2 + 1);
    BinaryShows(host, op2, g2, l, [a] + [op1] + [b], Applied(host, op1, x, y), Literal(c), [c], z, 1);
    assert [a] + [op1] + [b] + [op2] + [c] == [a, op1, b, op2, c];
    ShownValue(host, Binary(op2, l, Literal(c)), [a, op1, b, op2, c], Applied(host, op2, Applied(host, op1, x, y), z));
  }

  /** Of two operators the one in the later group is applied first, to the operands beside it, and the
      left one of the same group. */
  lemma LaterGroupFirst<V>(host: Host<V>, a: Token, x: V, op1: Token, g1: nat, b: Token, y: V, op2: Token, g2: nat, c: Token, z: V)
    requires Operand(host, a, x) && Operand(host, b, y) && Operand(host, c, z)
    requires g1 < |GROUPS| && op1 in GROUPS[g1] && g2 < |GROUPS| && op2 in GROUPS[g2]
    requires !Skips(host, op1, x)
    requires !Skips(host, op2, if g1 < g2 then y else Applied(host, op1, x, y))
    ensures Evaluate(host, [a, op1, b, op2, c]) ==
            if g1 < g2 then Ok(Applied(host, op1, x, Applied(host, op2, y, z)))
            else Ok(Applied(host, op2, Applied(host, op1, x, y), z))
  {
    hide Evaluate, Skips, Applied, Operand;
    if g1 < g2 {
      RightFirst(host, a, x, op1, g1, b, y, op2, g2, c, z);
    } else {
      LeftFirst(host, a, x, op1, g1, b, y, op2, g2, c, z);
    }
  }

  /** A prefix operator is applied before any binary one, on either side. */
  lemma PrefixFirst<V>(host: Host<V>, a: Token, x: V, op: Token, g: nat, b: Token, y: V, prefix: Token)
    requires Operand(host, a, x) && Operand(host, b, y) && g < |GROUPS| && op in GROUPS[g] && (prefix == Bang || prefix == Minus)
    ensures var x' := if prefix == Bang then host.bool2v(!host.truthy(x)) else host.negate(x);
            !Skips(host, op, x') ==> Evaluate(host, [prefix, a, op, b]) == Ok(Applied(host, op, x', y))
    ensures var y' := if prefix == Bang then host.bool2v(!host.truthy(y)) else host.negate(y);
            !Skips(host, op, x) ==> Evaluate(host, [a, op, prefix, b]) == Ok(Applied(host, op, x, y'))
  {
    hide Shows, Evaluate, Skips, Applied, Operand;
    var x' := if prefix == Bang then host.bool2v(!host.truthy(x)) else host.negate(x);
    var y' := if prefix == Bang then host.bool2v(!host.truthy(y)) else host.negate(y);
    LiteralShows(host, a, x, g + 1);
    LiteralShows(host, b, y, g + 2);
    if !Skips(host, op, x') {
      var t := PrefixShows(host, prefix, a, x, g + 1);
      BinaryShows(host, op, g, t, [prefix, a], x', Literal(b), [b], y, 1);
      assert [prefix, a] + [op] + [b] == [prefix, a, op, b];
      ShownValue(host, Binary(op, t, Literal(b)), [prefix, a, op, b], Applied(host, op, x', y));
    }
    if !Skips(host, op, x) {
      var t := PrefixShows(host, prefix, b, y, g + 2);
      BinaryShows(host, op, g, Literal(a), [a], x, t, [prefix, b], y', 1);
      assert [a] + [op] + [prefix, b] == [a, op, prefix, b];
      ShownValue(host, Binary(op, Literal(a), t), [a, op, prefix, b], Applied(host, op, x, y'));
    }
  }

  // ----- Groups, lists and calls -------------------------------------------

  lemma LeftGroup<V>(host: Host<V>, a: Token, x: V, op1: Token, g1: nat, b: Token, y: V, op2: Token, g2: nat, c: Token, z: V)
    requires Operand(host, a, x) && Operand(host, b, y) && Operand(host, c, z)
    requires g1 < |GROUPS| && op1 in GROUPS[g1] && g2 < |GROUPS| && op2 in GROUPS[g2]
    requires !Skips(host, op1, x) && !Skips(host, op2, Applied(host, op1, x, y))
    ensures Evaluate(host, [LParen, a, op1, b, RParen, op2, c]) == Ok(Applied(host, op2, Applied(host, op1, x, y), z))
  {
    hide Shows, Evaluate, Skips, Applied, Operand;
    LiteralShows(host, a, x, g1 + 1);
    LiteralShows(host, b, y, g1 + 2);
    LiteralShows(host, c, z, g2 + 2);
    var l, v := Binary(op1, Literal(a), Literal(b)), Applied(host, op1, x, y);
    BinaryShows(host, op1, g1, Literal(a), [a], x, Literal(b), [b], y, 1);
    GroupShows(host, l, [a] + [op1] + [b], v, g2 + 1);
    BinaryShows(host, op2, g2, Group(l), [LParen] + ([a] + [op1] + [b]) + [RParen], v, Literal(c), [c], z, 1);
    assert [LParen] + ([a] + [op1] + [b]) + [RParen] + [op2] + [c] == [LParen, a, op1, b, RParen, op2, c];
    ShownValue(host, Binary(op2, Group(l), Literal(c)), [LParen, a, op1, b, RParen, op2, c], Applied(host, op2, v, z));
  }

  lemma RightGroup<V>(host: Host<V>, a: Token, x: V, op1: Token, g1: nat, b: Token, y: V, op2: Token, g2: nat, c: Token, z: V)
    requires Operand(host, a, x) && Operand(host, b, y) && Operand(host, c, z)
    requires g1 < |GROUPS| && op1 in GROUPS[g1] && g2 < |GROUPS| && op2 in GROUPS[g2]
    requires !Skips(host, op2, y) && !Skips(host, op1, x)
    ensures Evaluate(host, [a, op1, LParen, b, op2, c, RParen]) == Ok(Applied(host, op1, x, Applied(host, op2, y, z)))
  {
    hide Shows, Evaluate, Skips, Applied, Operand;
    LiteralShows(host, a, x, g1 + 1);
    LiteralShows(host, b, y, g2 + 1);
    LiteralShows(host, c, z, g2 + 2);
    var r, v := Binary(op2, Literal(b), Literal(c)), Applied(host, op2, y, z);
    BinaryShows(host, op2, g2, Literal(b), [b], y, Literal(c), [c], z, 1);
    GroupShows(host, r, [b] + [op2] + [c], v, g1 + 2);
    BinaryShows(host, op1, g1, Literal(a), [a], x, Group(r), [LParen] + ([b] + [op2] + [c]) + [RParen], v, 1);
    assert [a] + [op1] + ([LParen] + ([b] + [op2] + [c]) + [RParen]) == [a, op1, LParen, b, op2, c, RParen];
    ShownValue(host, Binary(op1, Literal(a), Group(r)), [a, op1, LParen, b, op2, c, RParen], Applied(host, op1, x, v));
  }

  /** Parentheses go first: the operators inside are applied before the one outside. */
  lemma ParenthesesFirst<V>(host: Host<V>, a: Token, x: V, op1: Token, g1: nat, b: Token, y: V, op2: Token, g2: nat, c: Token, z: V)
    requires Operand(host, a, x) && Operand(host, b, y) && Operand(host, c, z)
    requires g1 < |GROUPS| && op1 in GROUPS[g1] && g2 < |GROUPS| && op2 in GROUPS[g2] && !Skips(host, op1, x)
    ensures !Skips(host, op2, Applied(host, op1, x, y)) ==>
              Evaluate(host, [LParen, a, op1, b, RParen, op2, c]) == Ok(Applied(host, op2, Applied(host, op1, x, y), z))
    ensures !Skips(host, op2, y) ==>
              Evaluate(host, [a, op1, LParen, b, op2, c, RParen]) == Ok(Applied(host, op1, x, Applied(host, op2, y, z)))
  {
    hide Evaluate, Skips, Applied, Operand;
    if !Skips(host, op2, Applied(host, op1, x, y)) { LeftGroup(host, a, x, op1, g1, b, y, op2, g2, c, z); }
    if !Skips(host, op2, y) { RightGroup(host, a, x, op1, g1, b, y, op2, g2, c, z); }
  }

  lemma GroupShows<V>(host: Host<V>, t: Tree, ts: seq<Token>, v: V, k: nat)
    requires Shows(host, t, 1, ts, v) && k <= UNARY
    ensures Shows(host, Group(t), k, [LParen] + ts + [RParen], v)
  {
  }

  function Separated(tokens: seq<Token>): seq<Token> {
    if tokens == [] then [] else if |tokens| == 1 then tokens else [tokens[0], Comma] + Separated(tokens[1..])
  }

  predicate Operands<V(==)>(host: Host<V>, tokens: seq<Token>, values: seq<V>) {
    |tokens| == |values| && forall i :: 0 <= i < |tokens| ==> Operand(host, tokens[i], values[i])
  }

  function Literals(tokens: seq<Token>): (r: seq<Tree>)
    ensures |r| == |tokens| && forall i :: 0 <= i < |r| ==> r[i] == Literal(tokens[i])
  {
    seq(|tokens|, i requires 0 <= i < |tokens| => Literal(tokens[i]))
  }

  lemma LiteralPrint(token: Token)
    ensures Print(Literal(token), 1) == [token]
  {
  }

  lemma {:induction false} LiteralsPrint(tokens: seq<Token>)
    ensures PrintAll(Literals(tokens)) == Separated(tokens)
    decreases |tokens|
  {
    hide Print, Bare;
    if tokens != [] {
      assert Literals(tokens)[1..] == Literals(tokens[1..]);
      LiteralsPrint(tokens[1..]);
      LiteralPrint(tokens[0]);
      if |tokens| == 1 {
        assert tokens == [tokens[0]];
      } else {
        assert [tokens[0]] + [Comma] == [tokens[0], Comma];
      }
    }
  }

  lemma {:induction false} LiteralsMean<V>(host: Host<V>, tokens: seq<Token>, values: seq<V>)
    requires Operands(host, tokens, values)
    ensures Meanings(host, Literals(tokens)) == Ok(values)
    decreases |tokens|
  {
    if tokens != [] {
      var rest := Literals(tokens[1..]);
      assert Literals(tokens)[1..] == rest;
      LiteralsMean(host, tokens[1..], values[1..]);
      assert Operand(host, tokens[0], values[0]);
      assert Meaning(host, Literals(tokens)[0]) == Ok(values[0]);
      hide Meaning;
      assert values == [values[0]] + values[1..];
    }
  }

  lemma LiteralsGood<V>(host: Host<V>, tokens: seq<Token>, values: seq<V>)
    requires Operands(host, tokens, values)
    ensures forall e :: e in Literals(tokens) ==> WellFormed(e) && !Decided(host, e)
  {
    forall i | 0 <= i < |tokens|
      ensures WellFormed(Literals(tokens)[i]) && !Decided(host, Literals(tokens)[i])
    {
      assert Operand(host, tokens[i], values[i]);
    }
  }

  /** An array lists its items in order; a call, also of a function named `in`, gets its arguments in order and gives
      the function's answer or its error. */
  lemma ListsAndCalls<V>(host: Host<V>, tokens: seq<Token>, values: seq<V>, name: string)
    requires Operands(host, tokens, values)
    ensures Evaluate(host, [LBracket] + Separated(tokens) + [RBracket]) == Ok(host.list(values))
    ensures host.call(name, values).Ok? ==>
              Evaluate(host, [Ident(name), LParen] + Separated(tokens) + [RParen]) == host.call(name, values)
    ensures host.call("in", values).Ok? ==>
              Evaluate(host, [In, LParen] + Separated(tokens) + [RParen]) == host.call("in", values)
  {
    LiteralsPrint(tokens);
    LiteralsMean(host, tokens, values);
    LiteralsGood(host, tokens, values);
    hide Evaluate, PrintAll, Meanings, WellFormed, Decided, Separated;
    ListShown(host, Literals(tokens), Separated(tokens), values);
    CallShown(host, Ident(name), name, Literals(tokens), Separated(tokens), values);
    CallShown(host, In, "in", Literals(tokens), Separated(tokens), values);
  }

  lemma ListShown<V>(host: Host<V>, items: seq<Tree>, ts: seq<Token>, values: seq<V>)
    requires PrintAll(items) == ts && Meanings(host, items) == Ok(values)
    requires forall e :: e in items ==> WellFormed(e) && !Decided(host, e)
    ensures Evaluate(host, [LBracket] + ts + [RBracket]) == Ok(host.list(values))
  {
    hide Evaluate, PrintAll, Meanings;
    var t := List(items);
    assert WellFormed(t) && !Decided(host, t);
    assert Print(t, 1) == [LBracket] + ts + [RBracket];
    ShownValue(host, t, [LBracket] + ts + [RBracket], host.list(values));
  }

  lemma CallShown<V>(host: Host<V>, fn: Token, name: string, args: seq<Tree>, ts: seq<Token>, values: seq<V>)
    requires fn == Ident(name) || (fn == In && name == "in")
    requires PrintAll(args) == ts && Meanings(host, args) == Ok(values)
    requires forall e :: e in args ==> WellFormed(e) && !Decided(host, e)
    ensures host.call(name, values).Ok? ==> Evaluate(host, [fn, LParen] + ts + [RParen]) == host.call(name, values)
  {
    hide Evaluate, PrintAll, Meanings;
    if host.call(name, values).Ok? {
      var t := Call(fn, args);
      assert WellFormed(t) && !Decided(host, t);
      assert Print(t, 1) == [fn, LParen] + ts + [RParen];
      ShownValue(host, t, [fn, LParen] + ts + [RParen], host.call(name, values).value);
    }
  }
}
