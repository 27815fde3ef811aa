/** The parser object: every method moves `position` as its specification function says. */
module Parser {
  import opened Expression

  /** A method's result and the position it leaves, against the function that specifies it. */
  ghost predicate Agrees<V>(spec: Parsed<V>, r: Result<V>, position: nat) {
    match spec
    case Parsed(v, next) => r == Ok(v) && position == next
    case Failed(e) => r == Err(e)
  }

  class Parser<V> {
    const tokens: seq<Token>
    const host: Host<V>
    var position: nat

    constructor (tokens: seq<Token>, host: Host<V>)
      ensures this.tokens == tokens && this.host == host && position == 0
    {
      this.tokens, this.host, this.position := tokens, host, 0;
    }

    method Match(token: Token) returns (matched: bool)
      modifies this`position
      ensures matched <==> Sees(tokens, old(position), token)
      ensures position == if matched then old(position) + 1 else old(position)
    {
      matched := position < |tokens| && tokens[position] == token;
      if matched { position := position + 1; }
    }

    method Run() returns (r: Result<V>)
      requires position == 0
      modifies this`position
      ensures r == Evaluate(host, tokens)
    {
      r := ParseExpression();
      if r.Ok? && position < |tokens| { r := Err(UnexpectedToken(tokens[position])); }
    }

    method ParseExpression() returns (r: Result<V>)
      requires position <= |tokens|
      modifies this`position
      ensures Agrees(Parse(host, tokens, old(position), 1), r, position)
      decreases |tokens| - position, 10
    {
      r := ParseOr();
    }

    method ParseOr() returns (r: Result<V>)
      requires position <= |tokens|
      modifies this`position
      ensures Agrees(Parse(host, tokens, old(position), 1), r, position)
      decreases |tokens| - position, 9
    {
      hide Parse, Rest;
      r := ParseAnd();
      LoopStart(host, tokens, old(position), 1);
      if r.Err? { return; }
      var left := r.value;
      while true
        invariant old(position) < position <= |tokens|
        invariant Parse(host, tokens, old(position), 1) == Rest(host, tokens, position, 1, left)
        decreases |tokens| - position
      {
        LoopStep(host, tokens, position, 1, left);
        var matched := Match(OrOr);
        if !matched { return Ok(left); }
        if host.truthy(left) {
          left := host.bool2v(true);
        } else {
          r := ParseAnd();
          if r.Err? { return; }
          left := host.bool2v(host.truthy(r.value));
        }
      }
    }

    method ParseAnd() returns (r: Result<V>)
      requires position <= |tokens|
      modifies this`position
      ensures Agrees(Parse(host, tokens, old(position), 2), r, position)
      decreases |tokens| - position, 8
    {
      hide Parse, Rest;
      r := ParseEquality();
      LoopStart(host, tokens, old(position), 2);
      if r.Err? { return; }
      var left := r.value;
      while true
        invariant old(position) < position <= |tokens|
        invariant Parse(host, tokens, old(position), 2) == Rest(host, tokens, position, 2, left)
        decreases |tokens| - position
      {
        LoopStep(host, tokens, position, 2, left);
        var matched := Match(AndAnd);
        if !matched { return Ok(left); }
        if !host.truthy(left) {
          left := host.bool2v(false);
        } else {
          r := ParseEquality();
          if r.Err? { return; }
          left := host.bool2v(host.truthy(r.value));
        }
      }
    }

    method ParseEquality() returns (r: Result<V>)
      requires position <= |tokens|
      modifies this`position
      ensures Agrees(Parse(host, tokens, old(position), 3), r, position)
      decreases |tokens| - position, 7
    {
      hide Parse, Rest;
      r := ParseComparison();
      LoopStart(host, tokens, old(position), 3);
      if r.Err? { return; }
      var left := r.value;
      while true
        invariant old(position) < position <= |tokens|
        invariant Parse(host, tokens, old(position), 3) == Rest(host, tokens, position, 3, left)
        decreases |tokens| - position
      {
        LoopStep(host, tokens, position, 3, left);
        var op := EqEq;
        var matched := Match(EqEq);
        if !matched {
          op := NotEq;
          matched := Match(NotEq);
        }
        if !matched { return Ok(left); }
        r := ParseComparison();
        if r.Err? { return; }
        left := host.operate(op, left, r.value);
      }
    }

    method ParseComparison() returns (r: Result<V>)
      requires position <= |tokens|
      modifies this`position
      ensures Agrees(Parse(host, tokens, old(position), 4), r, position)
      decreases |tokens| - position, 6
    {
      hide Parse, Rest;
      r := ParseTerm();
      LoopStart(host, tokens, old(position), 4);
      if r.Err? { return; }
      var left := r.value;
      while true
        invariant old(position) < position <= |tokens|
        invariant Parse(host, tokens, old(position), 4) == Rest(host, tokens, position, 4, left)
        decreases |tokens| - position
      {
        LoopStep(host, tokens, position, 4, left);
        if position == |tokens| || tokens[position] !in {Ge, Le, Gt, Lt, In} { return Ok(left); }
        var op := tokens[position];
        position := position + 1;
        r := ParseTerm();
        if r.Err? { return; }
        left := host.operate(op, left, r.value);
      }
    }

    method ParseTerm() returns (r: Result<V>)
      requires position <= |tokens|
      modifies this`position
      ensures Agrees(Parse(host, tokens, old(position), 5), r, position)
      decreases |tokens| - position, 5
    {
      hide Parse, Rest;
      r := ParseFactor();
      LoopStart(host, tokens, old(position), 5);
      if r.Err? { return; }
      var left := r.value;
      while true
        invariant old(position) < position <= |tokens|
        invariant Parse(host, tokens, old(position), 5) == Rest(host, tokens, position, 5, left)
        decreases |tokens| - position
      {
        LoopStep(host, tokens, position, 5, left);
        var op := Plus;
        var matched := Match(Plus);
        if !matched {
          op := Minus;
          matched := Match(Minus);
        }
        if !matched { return Ok(left); }
        r := ParseFactor();
        if r.Err? { return; }
        left := host.operate(op, left, r.value);
      }
    }

    method ParseFactor() returns (r: Result<V>)
      requires position <= |tokens|
      modifies this`position
      ensures Agrees(Parse(host, tokens, old(position), 6), r, position)
      decreases |tokens| - position, 4
    {
      hide Parse, Rest;
      r := ParseUnary();
      LoopStart(host, tokens, old(position), 6);
      if r.Err? { return; }
      var left := r.value;
      while true
        invariant old(position) < position <= |tokens|
        invariant Parse(host, tokens, old(position), 6) == Rest(host, tokens, position, 6, left)
        decreases |tokens| - position
      {
        LoopStep(host, tokens, position, 6, left);
        var op := Star;
        var matched := Match(Star);
        if !matched {
          op := Slash;
          matched := Match(Slash);
        }
        if !matched { return Ok(left); }
        r := ParseUnary();
        if r.Err? { return; }
        left := host.operate(op, left, r.value);
      }
    }

    method ParseUnary() returns (r: Result<V>)
      requires position <= |tokens|
      modifies this`position
      ensures Agrees(Parse(host, tokens, old(position), UNARY), r, position)
      decreases |tokens| - position, 3
    {
      var matched := Match(Bang);
      if matched {
        r := ParseUnary();
        if r.Ok? { r := Ok(host.bool2v(!host.truthy(r.value))); }
        return;
      }
      matched := Match(Minus);
      if matched {
        r := ParseUnary();
        if r.Ok? { r := Ok(host.negate(r.value)); }
        return;
      }
      r := ParsePrimary();
    }

    method ParsePrimary() returns (r: Result<V>)
      requires position <= |tokens|
      modifies this`position
      ensures Agrees(Primary(host, tokens, old(position)), r, position)
      decreases |tokens| - position, 2
    {
      if position == |tokens| { return Err(UnexpectedEnd); }
      var token := tokens[position];
      position := position + 1;
      if token.LParen? {
        r := ParseExpression();
        if r.Err? { return; }
        var matched := Match(RParen);
        if !matched { r := Err(Expected(RParen)); }
        return;
      }
      if token.LBracket? {
        var items := ParseItems(RBracket);
        return match items case Ok(values) => Ok(host.list(values)) case Err(e) => Err(e);
      }
      if IsLiteral(token) { return host.literal(token); }
      if IsName(token) {
        var matched := Match(LParen);
        if !matched { return Err(UnknownIdentifier(NameOf(token))); }
        var args := ParseItems(RParen);
        return match args case Ok(values) => host.call(NameOf(token), values) case Err(e) => Err(e);
      }
      r := Err(UnexpectedToken(token));
    }

    /** The common part of `parseArray` and `callFunction`: values up to the closer. */
    method ParseItems(closer: Token) returns (r: Result<seq<V>>)
      requires position <= |tokens|
      modifies this`position
      ensures Agrees(Items(host, tokens, old(position), closer), r, position)
      decreases |tokens| - position, 11
    {
      hide Parse, Elements, Prepend;
      var values: seq<V> := [];
      var matched := Match(closer);
      if matched { return Ok(values); }
      matched := true;
      PrependNothing(Elements(host, tokens, position));
      while matched
        invariant old(position) <= position <= |tokens|
        invariant matched ==> Elements(host, tokens, old(position)) == Prepend(values, Elements(host, tokens, position))
        invariant !matched ==> Elements(host, tokens, old(position)) == Parsed(values, position)
        decreases |tokens| - position, matched
      {
        ElementsStep(host, tokens, position);
        PrependFailed(values, Elements(host, tokens, position));
        var value := ParseExpression();
        if value.Err? { return Err(value.error); }
        if Sees(tokens, position, Comma) {
          PrependOne(values, value.value, Elements(host, tokens, position + 1));
        } else {
          PrependLast(values, value.value, position);
        }
        values := values + [value.value];
        matched := Match(Comma);
      }
      matched := Match(closer);
      r := if matched then Ok(values) else Err(Expected(closer));
    }
  }

  /** A level starts with an operand of the next level. */
  lemma LoopStart<V>(host: Host<V>, ts: seq<Token>, pos: nat, k: nat)
    requires pos <= |ts| && 1 <= k < UNARY
    ensures var first := Parse(host, ts, pos, k + 1);
            Parse(host, ts, pos, k) == if first.Failed? then first else Rest(host, ts, first.next, k, first.value)
  {
    hide Rest;
  }

  /** One round of the loop of a level. */
  lemma LoopStep<V>(host: Host<V>, ts: seq<Token>, pos: nat, k: nat, left: V)
    requires pos <= |ts| && 1 <= k < UNARY
    ensures var rest := Rest(host, ts, pos, k, left);
            if pos == |ts| || OpLevel(ts[pos]) != k then rest == Parsed(left, pos)
            else if Decides(host, ts[pos], left) then rest == Rest(host, ts, pos + 1, k, host.bool2v(ts[pos].OrOr?))
            else
              var right := Parse(host, ts, pos + 1, k + 1);
              if right.Failed? then rest == right
              else rest == Rest(host, ts, right.next, k, Combine(host, ts[pos], left, right.value))
  {
    hide Parse, OpLevel, Decides, Combine;
  }

  lemma ElementsStep<V>(host: Host<V>, ts: seq<Token>, pos: nat)
    requires pos <= |ts|
    ensures var first, all := Parse(host, ts, pos, 1), Elements(host, ts, pos);
            if first.Failed? then all == Failed(first.error)
            else if Sees(ts, first.next, Comma) then all == Prepend([first.value], Elements(host, ts, first.next + 1))
            else all == Parsed([first.value], first.next)
  {
    hide Parse;
  }

  function Prepend<V>(values: seq<V>, more: Parsed<seq<V>>): Parsed<seq<V>> {
    if more.Failed? then more else Parsed(values + more.value, more.next)
  }

  lemma PrependNothing<V>(more: Parsed<seq<V>>)
    ensures Prepend([], more) == more
  {
    if more.Parsed? { assert [] + more.value == more.value; }
  }

  lemma PrependFailed<V>(values: seq<V>, more: Parsed<seq<V>>)
    ensures more.Failed? ==> Prepend(values, more) == more
  {
  }

  lemma PrependLast<V>(values: seq<V>, v: V, next: nat)
    ensures Prepend(values, Parsed([v], next)) == Parsed(values + [v], next)
  {
  }

  lemma PrependOne<V>(values: seq<V>, v: V, more: Parsed<seq<V>>)
    ensures Prepend(values + [v], more) == Prepend(values, Prepend([v], more))
  {
    if more.Parsed? { assert (values + [v]) + more.value == values + ([v] + more.value); }
  }
}
