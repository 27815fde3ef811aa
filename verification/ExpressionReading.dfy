/** The converse: whatever the parser accepts is the print of a tree it evaluates. */
module ExpressionReading {
  import opened Expression
  import opened ExpressionTrees

  /** The tokens from `start` to `end` are those of `t` at level `k`, and its outcome is `v`. */
  predicate Spells<V(==)>(host: Host<V>, ts: seq<Token>, start: nat, end: nat, k: nat, t: Tree, v: V) {
    && start <= end <= |ts|
    && WellFormed(t) && k <= Level(t)
    && ts[start..end] == Print(t, k)
    && Outcome(host, t) == Ok(v)
  }

  lemma SpellsLooser<V>(host: Host<V>, ts: seq<Token>, start: nat, end: nat, k: nat, t: Tree, v: V)
    requires Spells(host, ts, start, end, k + 1, t, v)
    ensures Spells(host, ts, start, end, k, t, v)
  {
  }

  lemma DecidingLevel<V>(host: Host<V>, op: Token, v: V)
    requires Decides(host, op, v)
    ensures 1 <= OpLevel(op) <= 2
  {
  }

  lemma SpellsDangling<V>(host: Host<V>, ts: seq<Token>, start: nat, mid: nat, k: nat, l: Tree, v: V)
    requires Spells(host, ts, start, mid, k, l, v) && mid < |ts| && OpLevel(ts[mid]) == k
    requires Decides(host, ts[mid], v)
    ensures Spells(host, ts, start, mid + 1, k, Dangling(ts[mid], l), host.bool2v(ts[mid].OrOr?))
  {
    hide Outcome, Print, Bare, Decides, OpLevel;
    var t := Dangling(ts[mid], l);
    DecidingLevel(host, ts[mid], v);
    assert ts[start..mid + 1] == ts[start..mid] + [ts[mid]];
    OutcomeOf(host, t);
    Shapes(t);
    Unwrapped(t, k);
  }

  lemma SpellsBinary<V>(host: Host<V>, ts: seq<Token>, start: nat, mid: nat, end: nat, k: nat,
                        l: Tree, vl: V, r: Tree, vr: V)
    requires Spells(host, ts, start, mid, k, l, vl) && mid < |ts| && OpLevel(ts[mid]) == k && 1 <= k < UNARY
    requires Spells(host, ts, mid + 1, end, k + 1, r, vr)
    requires !Decides(host, ts[mid], vl)
    ensures Spells(host, ts, start, end, k, Binary(ts[mid], l, r), Combine(host, ts[mid], vl, vr))
  {
    hide Outcome, Print, Bare, Decides, OpLevel, Combine;
    var t := Binary(ts[mid], l, r);
    Unwrapped(t, k);
    assert ts[start..end] == ts[start..mid] + [ts[mid]] + ts[mid + 1..end];
    OutcomeOf(host, t);
    Shapes(t);
  }

  lemma SpellsPrefix<V>(host: Host<V>, ts: seq<Token>, pos: nat, end: nat, e: Tree, v: V) returns (t: Tree)
    requires Spells(host, ts, pos + 1, end, UNARY, e, v) && (Sees(ts, pos, Bang) || Sees(ts, pos, Minus))
    ensures Spells(host, ts, pos, end, UNARY, t, if ts[pos].Bang? then host.bool2v(!host.truthy(v)) else host.negate(v))
  {
    t := if ts[pos].Bang? then Not(e) else Negate(e);
    assert ts[pos..end] == [ts[pos]] + ts[pos + 1..end];
    OutcomeOf(host, t);
    Shapes(t);
  }

  lemma SpellsGroup<V>(host: Host<V>, ts: seq<Token>, pos: nat, end: nat, e: Tree, v: V)
    requires Spells(host, ts, pos + 1, end, 1, e, v) && Sees(ts, pos, LParen) && Sees(ts, end, RParen)
    ensures Spells(host, ts, pos, end + 1, UNARY, Group(e), v)
  {
    assert ts[pos..end + 1] == [ts[pos]] + ts[pos + 1..end] + [ts[end]];
    OutcomeOf(host, Group(e));
    Shapes(Group(e));
  }

  lemma SpellsLiteral<V>(host: Host<V>, ts: seq<Token>, pos: nat)
    requires pos < |ts| && IsLiteral(ts[pos]) && host.literal(ts[pos]).Ok?
    ensures Spells(host, ts, pos, pos + 1, UNARY, Literal(ts[pos]), host.literal(ts[pos]).value)
  {
    assert ts[pos..pos + 1] == [ts[pos]];
  }

  predicate SpellsAll<V(==)>(host: Host<V>, ts: seq<Token>, start: nat, end: nat, es: seq<Tree>, vs: seq<V>) {
    && start <= end <= |ts|
    && (forall e :: e in es ==> WellFormed(e))
    && ts[start..end] == PrintAll(es)
    && Outcomes(host, es) == Ok(vs)
  }

  lemma SpellsList<V>(host: Host<V>, ts: seq<Token>, pos: nat, end: nat, es: seq<Tree>, vs: seq<V>)
    requires SpellsAll(host, ts, pos + 1, end, es, vs) && Sees(ts, pos, LBracket) && Sees(ts, end, RBracket)
    ensures Spells(host, ts, pos, end + 1, UNARY, List(es), host.list(vs))
  {
    assert ts[pos..end + 1] == [ts[pos]] + ts[pos + 1..end] + [ts[end]];
    OutcomeOf(host, List(es));
    Shapes(List(es));
  }

  lemma SpellsCall<V>(host: Host<V>, ts: seq<Token>, pos: nat, end: nat, es: seq<Tree>, vs: seq<V>)
    requires SpellsAll(host, ts, pos + 2, end, es, vs) && Sees(ts, pos + 1, LParen) && Sees(ts, end, RParen)
    requires IsName(ts[pos]) && host.call(NameOf(ts[pos]), vs).Ok?
    ensures Spells(host, ts, pos, end + 1, UNARY, Call(ts[pos], es), host.call(NameOf(ts[pos]), vs).value)
  {
    assert ts[pos..end + 1] == [ts[pos]] + [ts[pos + 1]] + ts[pos + 2..end] + [ts[end]];
    OutcomeOf(host, Call(ts[pos], es));
    Shapes(Call(ts[pos], es));
  }

  lemma SpellsOne<V>(host: Host<V>, ts: seq<Token>, start: nat, end: nat, e: Tree, v: V)
    requires Spells(host, ts, start, end, 1, e, v)
    ensures SpellsAll(host, ts, start, end, [e], [v])
  {
    OutcomesStep(host, [e]);
    NoOutcomes(host, [e][1..]);
    assert [v] + [] == [v];
  }

  lemma SpellsMore<V>(host: Host<V>, ts: seq<Token>, start: nat, mid: nat, end: nat, e: Tree, v: V, es: seq<Tree>, vs: seq<V>)
    requires Spells(host, ts, start, mid, 1, e, v) && Sees(ts, mid, Comma) && SpellsAll(host, ts, mid + 1, end, es, vs)
    requires es != []
    ensures SpellsAll(host, ts, start, end, [e] + es, [v] + vs)
  {
    var all := [e] + es;
    assert all[1..] == es;
    assert ts[start..end] == ts[start..mid] + [ts[mid]] + ts[mid + 1..end];
    OutcomesStep(host, all);
  }

  // ----- From the parser to trees ------------------------------------------

  lemma {:induction false} ParseReads<V>(host: Host<V>, ts: seq<Token>, pos: nat, k: nat) returns (t: Tree)
    requires pos <= |ts| && 1 <= k <= UNARY && Parse(host, ts, pos, k).Parsed?
    ensures var r := Parse(host, ts, pos, k); Spells(host, ts, pos, r.next, k, t, r.value)
    decreases |ts| - pos, 10 - k
  {
    hide Spells;
    if k == UNARY {
      t := UnaryReads(host, ts, pos);
    } else {
      var first := Parse(host, ts, pos, k + 1);
      var l := ParseReads(host, ts, pos, k + 1);
      SpellsLooser(host, ts, pos, first.next, k, l, first.value);
      t := RestReads(host, ts, pos, first.next, k, l, first.value);
    }
  }

  lemma {:induction false} RestReads<V>(host: Host<V>, ts: seq<Token>, start: nat, pos: nat, k: nat, l: Tree, left: V)
      returns (t: Tree)
    requires pos <= |ts| && 1 <= k < UNARY && Rest(host, ts, pos, k, left).Parsed?
    requires Spells(host, ts, start, pos, k, l, left)
    ensures var r := Rest(host, ts, pos, k, left); Spells(host, ts, start, r.next, k, t, r.value)
    decreases |ts| - pos, 0
  {
    hide Spells;
    if pos == |ts| || OpLevel(ts[pos]) != k {
      t := l;
    } else if Decides(host, ts[pos], left) {
      SpellsDangling(host, ts, start, pos, k, l, left);
      t := RestReads(host, ts, start, pos + 1, k, Dangling(ts[pos], l), host.bool2v(ts[pos].OrOr?));
    } else {
      var right := Parse(host, ts, pos + 1, k + 1);
      var r := ParseReads(host, ts, pos + 1, k + 1);
      SpellsBinary(host, ts, start, pos, right.next, k, l, left, r, right.value);
      t := RestReads(host, ts, start, right.next, k, Binary(ts[pos], l, r), Combine(host, ts[pos], left, right.value));
    }
  }

  lemma {:induction false} UnaryReads<V>(host: Host<V>, ts: seq<Token>, pos: nat) returns (t: Tree)
    requires pos <= |ts| && Unary(host, ts, pos).Parsed?
    ensures var r := Unary(host, ts, pos); Spells(host, ts, pos, r.next, UNARY, t, r.value)
    decreases |ts| - pos, 2
  {
    hide Spells;
    if Sees(ts, pos, Bang) || Sees(ts, pos, Minus) {
      var e := Parse(host, ts, pos + 1, UNARY);
      var operand := ParseReads(host, ts, pos + 1, UNARY);
      t := SpellsPrefix(host, ts, pos, e.next, operand, e.value);
    } else {
      t := PrimaryReads(host, ts, pos);
    }
  }

  lemma {:induction false} PrimaryReads<V>(host: Host<V>, ts: seq<Token>, pos: nat) returns (t: Tree)
    requires pos <= |ts| && Primary(host, ts, pos).Parsed?
    ensures var r := Primary(host, ts, pos); Spells(host, ts, pos, r.next, UNARY, t, r.value)
    decreases |ts| - pos, 1
  {
    hide Spells;
    hide SpellsAll;
    hide Parse;
    hide Items;
    if IsName(ts[pos]) {
      t := CallReads(host, ts, pos);
      return;
    }
    if ts[pos].LParen? {
      var inner := Parse(host, ts, pos + 1, 1);
      var e := ParseReads(host, ts, pos + 1, 1);
      SpellsGroup(host, ts, pos, inner.next, e, inner.value);
      t := Group(e);
    } else if ts[pos].LBracket? {
      var items := Items(host, ts, pos + 1, RBracket);
      var es := ItemsRead(host, ts, pos + 1, RBracket);
      SpellsList(host, ts, pos, items.next - 1, es, items.value);
      t := List(es);
    } else {
      SpellsLiteral(host, ts, pos);
      t := Literal(ts[pos]);
    }
  }

  lemma {:induction false} CallReads<V>(host: Host<V>, ts: seq<Token>, pos: nat) returns (t: Tree)
    requires pos < |ts| && IsName(ts[pos]) && Primary(host, ts, pos).Parsed?
    ensures var r := Primary(host, ts, pos); Spells(host, ts, pos, r.next, UNARY, t, r.value)
    decreases |ts| - pos, 0
  {
    hide Spells;
    hide SpellsAll;
    hide Items;
    var args := Items(host, ts, pos + 2, RParen);
    var es := ItemsRead(host, ts, pos + 2, RParen);
    SpellsCall(host, ts, pos, args.next - 1, es, args.value);
    t := Call(ts[pos], es);
  }

  lemma {:induction false} ItemsRead<V>(host: Host<V>, ts: seq<Token>, pos: nat, closer: Token) returns (es: seq<Tree>)
    requires pos <= |ts| && Items(host, ts, pos, closer).Parsed?
    ensures var r := Items(host, ts, pos, closer);
            Sees(ts, r.next - 1, closer) && SpellsAll(host, ts, pos, r.next - 1, es, r.value)
    decreases |ts| - pos, 12
  {
    if Sees(ts, pos, closer) {
      es := [];
      NoOutcomes(host, es);
    } else {
      es := ElementsRead(host, ts, pos);
    }
  }

  lemma {:induction false} ElementsRead<V>(host: Host<V>, ts: seq<Token>, pos: nat) returns (es: seq<Tree>)
    requires pos <= |ts| && Elements(host, ts, pos).Parsed?
    ensures es != []
    ensures var r := Elements(host, ts, pos); SpellsAll(host, ts, pos, r.next, es, r.value)
    decreases |ts| - pos, 11
  {
    hide Spells;
    hide SpellsAll;
    var first := Parse(host, ts, pos, 1);
    var e := ParseReads(host, ts, pos, 1);
    if Sees(ts, first.next, Comma) {
      var more := Elements(host, ts, first.next + 1);
      var rest := ElementsRead(host, ts, first.next + 1);
      SpellsMore(host, ts, pos, first.next, more.next, e, first.value, rest, more.value);
      es := [e] + rest;
    } else {
      SpellsOne(host, ts, pos, first.next, e, first.value);
      es := [e];
    }
  }

  /** The parser accepts a token list with a value if and only if the tokens are those of a tree
      with that tree-walk value in which no operand is parsed in vain. The tree may have dangling
      operators: `true ||` is accepted. */
  lemma AcceptsExactlyPrints<V>(host: Host<V>, ts: seq<Token>, v: V)
    ensures Evaluate(host, ts) == Ok(v) <==>
            exists t :: WellFormed(t) && Print(t, 1) == ts && Meaning(host, t) == Ok(v) && !Decided(host, t)
  {
    if Evaluate(host, ts) == Ok(v) {
      var t := ParseReads(host, ts, 0, 1);
      assert ts[0..|ts|] == ts;
      assert WellFormed(t) && Print(t, 1) == ts && Meaning(host, t) == Ok(v) && !Decided(host, t);
    }
    forall t | WellFormed(t) && Print(t, 1) == ts && Meaning(host, t) == Ok(v) && !Decided(host, t)
      ensures Evaluate(host, ts) == Ok(v)
    {
      EvaluatesIff(host, t);
    }
  }

  /** A missing right operand goes unnoticed when the left one decides. */
  lemma DanglingAccepted<V>(host: Host<V>, v: V)
    requires host.literal(True) == Ok(v) && host.truthy(v)
    ensures Evaluate(host, [True, OrOr]) == Ok(host.bool2v(true))
  {
    var t := Dangling(OrOr, Literal(True));
    assert Print(t, 1) == [True, OrOr];
    EvaluatesIff(host, t);
  }
}
