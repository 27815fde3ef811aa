/** The one-pass parser and evaluator of rule expressions, over tokens: a class whose methods
    move a position, and the functions that say what each method returns. */
module Expression {

  datatype Token =
    | OrOr | AndAnd | EqEq | NotEq | Ge | Le | Gt | Lt | In | Plus | Minus | Star | Slash | Bang
    | LParen | RParen | LBracket | RBracket | Comma | Arrow
    | True | False | Null | Number(text: string) | Text(text: string) | Ident(name: string)

  datatype Error =
    | UnexpectedEnd
    | UnexpectedToken(token: Token)
    | UnknownIdentifier(name: string)
    | Expected(token: Token)
    | Operand(message: string)

  datatype Result<+V> = Ok(value: V) | Err(error: Error)

  /** The values and operations of the host language, left open: truthiness, booleans as values,
      literals and function calls (which may throw), arrays, and the other operators. */
  datatype Host<!V> = Host(
    truthy: V -> bool,
    bool2v: bool -> V,
    literal: Token -> Result<V>,
    list: seq<V> -> V,
    call: (string, seq<V>) -> Result<V>,
    negate: V -> V,
    operate: (Token, V, V) -> V)

  /** Binding strength of a binary operator, loosest first; 0 for any other token. */
  function OpLevel(t: Token): nat {
    match t
    case OrOr => 1
    case AndAnd => 2
    case EqEq | NotEq => 3
    case Ge | Le | Gt | Lt | In => 4
    case Plus | Minus => 5
    case Star | Slash => 6
    case _ => 0
  }

  const UNARY := 7

  function Combine<V>(host: Host<V>, op: Token, left: V, right: V): V {
    match op
    case OrOr => host.bool2v(host.truthy(left) || host.truthy(right))
    case AndAnd => host.bool2v(host.truthy(left) && host.truthy(right))
    case _ => host.operate(op, left, right)
  }

  /** The left operand already decides the result, so the right one is not even parsed. */
  predicate Decides<V>(host: Host<V>, op: Token, left: V) {
    (op.OrOr? && host.truthy(left)) || (op.AndAnd? && !host.truthy(left))
  }

  // ----- What each parse method returns -------------------------------------

  datatype Parsed<+V> = Parsed(value: V, next: nat) | Failed(error: Error)

  /** Token `t` stands at `pos`. */
  predicate Sees(ts: seq<Token>, pos: nat, t: Token) {
    pos < |ts| && ts[pos] == t
  }

  /** Parse an operand of level `k`: 1 for `||` down to 7 for unary operators. */
  function Parse<V>(host: Host<V>, ts: seq<Token>, pos: nat, k: nat): (r: Parsed<V>)
    requires pos <= |ts| && 1 <= k <= UNARY
    ensures r.Parsed? ==> pos < r.next <= |ts|
    decreases |ts| - pos, 10 - k
  {
    if k == UNARY then Unary(host, ts, pos)
    else
      var first := Parse(host, ts, pos, k + 1);
      if first.Failed? then first else Rest(host, ts, first.next, k, first.value)
  }

  /** The loop of level `k` after its left operand. */
  function Rest<V>(host: Host<V>, ts: seq<Token>, pos: nat, k: nat, left: V): (r: Parsed<V>)
    requires pos <= |ts| && 1 <= k < UNARY
    ensures r.Parsed? ==> pos <= r.next <= |ts|
    decreases |ts| - pos, 0
  {
    if pos == |ts| || OpLevel(ts[pos]) != k then Parsed(left, pos)
    else if Decides(host, ts[pos], left) then Rest(host, ts, pos + 1, k, host.bool2v(ts[pos].OrOr?))
    else
      var right := Parse(host, ts, pos + 1, k + 1);
      if right.Failed? then right
      else Rest(host, ts, right.next, k, Combine(host, ts[pos], left, right.value))
  }

  function Unary<V>(host: Host<V>, ts: seq<Token>, pos: nat): (r: Parsed<V>)
    requires pos <= |ts|
    ensures r.Parsed? ==> pos < r.next <= |ts|
    decreases |ts| - pos, 2
  {
    if Sees(ts, pos, Bang) then
      var e := Parse(host, ts, pos + 1, UNARY);
      if e.Failed? then e else Parsed(host.bool2v(!host.truthy(e.value)), e.next)
    else if Sees(ts, pos, Minus) then
      var e := Parse(host, ts, pos + 1, UNARY);
      if e.Failed? then e else Parsed(host.negate(e.value), e.next)
    else Primary(host, ts, pos)
  }

  predicate IsLiteral(t: Token) {
    t.True? || t.False? || t.Null? || t.Number? || t.Text?
  }

  /** Words that may name a function: `in` is spelled like an identifier. */
  predicate IsName(t: Token) {
    t.Ident? || t.In?
  }

  function NameOf(t: Token): string {
    if t.Ident? then t.name else "in"
  }

  function Close<V>(ts: seq<Token>, e: Parsed<V>, closer: Token): (r: Parsed<V>)
    requires e.Parsed? ==> e.next <= |ts|
    ensures r.Parsed? ==> e.Parsed? && r.next == e.next + 1 <= |ts|
  {
    if e.Failed? then e
    else if Sees(ts, e.next, closer) then Parsed(e.value, e.next + 1)
    else Failed(Expected(closer))
  }

  function Primary<V>(host: Host<V>, ts: seq<Token>, pos: nat): (r: Parsed<V>)
    requires pos <= |ts|
    ensures r.Parsed? ==> pos < r.next <= |ts|
    decreases |ts| - pos, 1
  {
    if pos == |ts| then Failed(UnexpectedEnd)
    else if ts[pos].LParen? then Close(ts, Parse(host, ts, pos + 1, 1), RParen)
    else if ts[pos].LBracket? then
      var items := Items(host, ts, pos + 1, RBracket);
      if items.Failed? then Failed(items.error) else Parsed(host.list(items.value), items.next)
    else if IsLiteral(ts[pos]) then
      match host.literal(ts[pos])
      case Ok(v) => Parsed(v, pos + 1)
      case Err(e) => Failed(e)
    else if IsName(ts[pos]) then
      if !Sees(ts, pos + 1, LParen) then Failed(UnknownIdentifier(NameOf(ts[pos])))
      else
        var args := Items(host, ts, pos + 2, RParen);
        if args.Failed? then Failed(args.error)
        else match host.call(NameOf(ts[pos]), args.value)
          case Ok(v) => Parsed(v, args.next)
          case Err(e) => Failed(e)
    else Failed(UnexpectedToken(ts[pos]))
  }

  /** A possibly empty list up to and including its closer. */
  function Items<V>(host: Host<V>, ts: seq<Token>, pos: nat, closer: Token): (r: Parsed<seq<V>>)
    requires pos <= |ts|
    ensures r.Parsed? ==> pos < r.next <= |ts|
    decreases |ts| - pos, 12
  {
    if Sees(ts, pos, closer) then Parsed([], pos + 1)
    else Close(ts, Elements(host, ts, pos), closer)
  }

  /** One or more expressions separated by commas. */
  function Elements<V>(host: Host<V>, ts: seq<Token>, pos: nat): (r: Parsed<seq<V>>)
    requires pos <= |ts|
    ensures r.Parsed? ==> pos < r.next <= |ts|
    decreases |ts| - pos, 11
  {
    var first := Parse(host, ts, pos, 1);
    if first.Failed? then Failed(first.error)
    else if !Sees(ts, first.next, Comma) then Parsed([first.value], first.next)
    else
      var more := Elements(host, ts, first.next + 1);
      if more.Failed? then more else Parsed([first.value] + more.value, more.next)
  }

  /** `evaluateExpression`: parse from the start, then demand the end. */
  function Evaluate<V>(host: Host<V>, ts: seq<Token>): Result<V> {
    match Parse(host, ts, 0, 1)
    case Failed(e) => Err(e)
    case Parsed(v, next) => if next < |ts| then Err(UnexpectedToken(ts[next])) else Ok(v)
  }
}
