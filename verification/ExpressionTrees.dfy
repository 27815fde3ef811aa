/** Expression trees, their tokens and their values, and what the parser makes of the tokens. */
module ExpressionTrees {
  import opened Expression

  /** `Dangling` is a logical operator whose right operand is missing: no expression a person
      writes on purpose, but a token list the parser may meet. */
  datatype Tree =
    | Literal(token: Token)
    | Group(inner: Tree)
    | List(items: seq<Tree>)
    | Call(fn: Token, args: seq<Tree>)
    | Not(operand: Tree)
    | Negate(operand: Tree)
    | Binary(op: Token, left: Tree, right: Tree)
    | Dangling(op: Token, left: Tree)

  predicate WellFormed(t: Tree) {
    match t
    case Literal(token) => IsLiteral(token)
    case Group(inner) => WellFormed(inner)
    case List(items) => forall e :: e in items ==> WellFormed(e)
    case Call(fn, args) => IsName(fn) && forall e :: e in args ==> WellFormed(e)
    case Not(e) => WellFormed(e)
    case Negate(e) => WellFormed(e)
    case Binary(op, l, r) => OpLevel(op) > 0 && WellFormed(l) && WellFormed(r)
    case Dangling(op, l) => 1 <= OpLevel(op) <= 2 && WellFormed(l)
  }

  /** No operand is missing. */
  predicate Complete(t: Tree) {
    match t
    case Literal(_) => true
    case Group(inner) => Complete(inner)
    case List(items) => forall e :: e in items ==> Complete(e)
    case Call(_, args) => forall e :: e in args ==> Complete(e)
    case Not(e) => Complete(e)
    case Negate(e) => Complete(e)
    case Binary(_, l, r) => Complete(l) && Complete(r)
    case Dangling(_, _) => false
  }

  // ----- Printing by precedence --------------------------------------------

  function Level(t: Tree): nat {
    if t.Binary? || t.Dangling? then OpLevel(t.op) else UNARY
  }

  /** The tokens of `t` where an operand of level `k` is expected: parenthesised when it binds less tightly. */
  function Print(t: Tree, k: nat): seq<Token>
    decreases t, 1
  {
    if Level(t) < k then [LParen] + Bare(t) + [RParen] else Bare(t)
  }

  function Bare(t: Tree): seq<Token>
    decreases t, 0
  {
    match t
    case Literal(token) => [token]
    case Group(inner) => [LParen] + Print(inner, 1) + [RParen]
    case List(items) => [LBracket] + PrintAll(items) + [RBracket]
    case Call(fn, args) => [fn, LParen] + PrintAll(args) + [RParen]
    case Not(e) => [Bang] + Print(e, UNARY)
    case Negate(e) => [Minus] + Print(e, UNARY)
    case Binary(op, l, r) => Print(l, OpLevel(op)) + [op] + Print(r, OpLevel(op) + 1)
    case Dangling(op, l) => Print(l, OpLevel(op)) + [op]
  }

  function PrintAll(es: seq<Tree>): seq<Token>
    decreases es, 2
  {
    if es == [] then []
    else if |es| == 1 then Print(es[0], 1)
    else Print(es[0], 1) + [Comma] + PrintAll(es[1..])
  }

  // ----- Values ------------------------------------------------------------

  /** The tree-walk value: operands from left to right, the first failure wins. */
  function Meaning<V>(host: Host<V>, t: Tree): Result<V>
    decreases t, 0
  {
    match t
    case Literal(token) => host.literal(token)
    case Group(inner) => Meaning(host, inner)
    case List(items) =>
      (match Meanings(host, items) case Ok(vs) => Ok(host.list(vs)) case Err(e) => Err(e))
    case Call(fn, args) =>
      (match Meanings(host, args) case Ok(vs) => host.call(NameOf(fn), vs) case Err(e) => Err(e))
    case Not(e) =>
      (match Meaning(host, e) case Ok(v) => Ok(host.bool2v(!host.truthy(v))) case Err(e) => Err(e))
    case Negate(e) =>
      (match Meaning(host, e) case Ok(v) => Ok(host.negate(v)) case Err(e) => Err(e))
    case Binary(op, l, r) =>
      (match Meaning(host, l)
       case Err(e) => Err(e)
       case Ok(left) =>
         match Meaning(host, r)
         case Err(e) => Err(e)
         case Ok(right) => Ok(Combine(host, op, left, right)))
    case Dangling(op, l) =>
      (match Meaning(host, l)
       case Err(e) => Err(e)
       case Ok(left) => if Decides(host, op, left) then Ok(host.bool2v(op.OrOr?)) else Err(UnexpectedEnd))
  }

  function Meanings<V>(host: Host<V>, es: seq<Tree>): (r: Result<seq<V>>)
    decreases es, 1
  {
    if es == [] then Ok([])
    else match Meaning(host, es[0])
      case Err(e) => Err(e)
      case Ok(v) =>
        match Meanings(host, es[1..])
        case Err(e) => Err(e)
        case Ok(vs) => Ok([v] + vs)
  }

  /** Somewhere in the tree the left operand of `||` is truthy, or that of `&&` falsy, although
      there is a right operand. */
  predicate Decided<V>(host: Host<V>, t: Tree) {
    match t
    case Literal(_) => false
    case Group(inner) => Decided(host, inner)
    case List(items) => exists e :: e in items && Decided(host, e)
    case Call(_, args) => exists e :: e in args && Decided(host, e)
    case Not(e) => Decided(host, e)
    case Negate(e) => Decided(host, e)
    case Binary(op, l, r) =>
      Decided(host, l) || Decided(host, r) || (Meaning(host, l).Ok? && Decides(host, op, Meaning(host, l).value))
    case Dangling(_, l) => Decided(host, l)
  }

  /** The trees the parser evaluates. */
  predicate Good<V>(host: Host<V>, t: Tree) {
    Meaning(host, t).Ok? && !Decided(host, t)
  }

  // ----- Tokens that may come first, and tokens that may follow -------------

  predicate Starts(t: Token) {
    IsLiteral(t) || IsName(t) || t.LParen? || t.LBracket? || t.Bang? || t.Minus?
  }

  /** What may follow an operand of level `k`: the end, a closer, a comma or an operator no tighter than `k`. */
  predicate Follows(ts: seq<Token>, pos: nat, k: nat) {
    pos >= |ts| || ts[pos] in {RParen, RBracket, Comma} || 1 <= OpLevel(ts[pos]) <= k
  }

  predicate At(ts: seq<Token>, pos: nat, p: seq<Token>) {
    pos + |p| <= |ts| && ts[pos..pos + |p|] == p
  }

  lemma AtSplit(ts: seq<Token>, pos: nat, a: seq<Token>, b: seq<Token>)
    ensures At(ts, pos, a + b) <==> At(ts, pos, a) && At(ts, pos + |a|, b)
  {
    if At(ts, pos, a + b) {
      assert ts[pos..pos + |a|] == (a + b)[..|a|] == a;
      assert ts[pos + |a|..pos + |a| + |b|] == (a + b)[|a|..] == b;
    }
    if At(ts, pos, a) && At(ts, pos + |a|, b) {
      assert ts[pos..pos + |a + b|] == ts[pos..pos + |a|] + ts[pos + |a|..pos + |a| + |b|];
    }
  }

  lemma AtOne(ts: seq<Token>, pos: nat, t: Token)
    ensures At(ts, pos, [t]) <==> Sees(ts, pos, t)
  {
    if pos < |ts| { assert ts[pos..pos + 1] == [ts[pos]]; }
  }

  lemma {:induction false} FirstToken(t: Tree, k: nat)
    requires WellFormed(t)
    ensures Print(t, k) != [] && Starts(Print(t, k)[0])
    ensures Bare(t) != [] && Starts(Bare(t)[0])
  {
    if t.Binary? || t.Dangling? { FirstToken(t.left, OpLevel(t.op)); }
  }

  lemma FirstOfAll(es: seq<Tree>)
    requires es != [] && forall e :: e in es ==> WellFormed(e)
    ensures PrintAll(es) != [] && Starts(PrintAll(es)[0])
  {
    FirstToken(es[0], 1);
  }

  // ----- The parser on printed trees ---------------------------------------

  /** The loop of level `k`, or nothing at the level of unary operators. */
  function Continue<V>(host: Host<V>, ts: seq<Token>, pos: nat, k: nat, v: V): Parsed<V>
    requires pos <= |ts| && 1 <= k <= UNARY
  {
    if k == UNARY then Parsed(v, pos) else Rest(host, ts, pos, k, v)
  }

  /** Failure, or a value that stops in front of an operand nobody will take. */
  predicate Stuck<V>(ts: seq<Token>, r: Parsed<V>, k: nat) {
    r.Failed? || (k <= 2 && r.next < |ts| && Starts(ts[r.next]))
  }

  /** Parsing at level `k` from `pos` to `end`: the loop goes on with the value `o`, or it is stuck. */
  predicate Lands<V(==)>(host: Host<V>, ts: seq<Token>, pos: nat, k: nat, end: nat, o: Result<V>)
    requires pos <= |ts| && end <= |ts| && 1 <= k <= UNARY
  {
    if o.Ok? then Parse(host, ts, pos, k) == Continue(host, ts, end, k, o.value)
    else Stuck(ts, Parse(host, ts, pos, k), k)
  }

  /** The value of a good tree. */
  function Outcome<V>(host: Host<V>, t: Tree): Result<V> {
    if Decided(host, t) then Err(UnexpectedEnd) else Meaning(host, t)
  }

  /** From one level to the next looser one. */
  lemma Loosen<V>(host: Host<V>, ts: seq<Token>, pos: nat, k: nat, end: nat, o: Result<V>)
    requires pos <= |ts| && end <= |ts| && 1 <= k < UNARY && Follows(ts, end, k)
    requires Lands(host, ts, pos, k + 1, end, o)
    ensures Lands(host, ts, pos, k, end, o)
  {
    hide Parse;
    ParseOnce(host, ts, pos, k);
    if o.Ok? {
      NoLoop(host, ts, end, k, o.value);
    } else {
      var first := Parse(host, ts, pos, k + 1);
      if first.Parsed? { StartsNoLoop(host, ts, first.next, k, first.value); }
    }
  }

  lemma ParseOnce<V>(host: Host<V>, ts: seq<Token>, pos: nat, k: nat)
    requires pos <= |ts| && 1 <= k < UNARY
    ensures Parse(host, ts, pos, k) ==
            var first := Parse(host, ts, pos, k + 1);
            if first.Failed? then first else Rest(host, ts, first.next, k, first.value)
  {
  }

  /** Nothing binds tighter than `k` here, so the loop of the next level ends at once. */
  lemma NoLoop<V>(host: Host<V>, ts: seq<Token>, pos: nat, k: nat, v: V)
    requires pos <= |ts| && 1 <= k < UNARY && Follows(ts, pos, k)
    ensures Continue(host, ts, pos, k + 1, v) == Parsed(v, pos)
  {
  }

  /** The logical loops stop in front of a token that starts an operand. */
  lemma StartsNoLoop<V>(host: Host<V>, ts: seq<Token>, pos: nat, k: nat, v: V)
    requires pos < |ts| && Starts(ts[pos]) && 1 <= k <= 2
    ensures Rest(host, ts, pos, k, v) == Parsed(v, pos)
  {
  }

  /** Parentheses are printed exactly around trees that bind less tightly, as around a group. */
  lemma Parenthesised<V>(host: Host<V>, t: Tree, k: nat)
    requires WellFormed(t) && k <= UNARY
    ensures Print(t, k) == if Level(t) < k then Bare(Group(t)) else Bare(t)
    ensures WellFormed(Group(t)) && Outcome(host, Group(t)) == Outcome(host, t)
  {
    assert Print(t, 1) == Bare(t);
  }

  // ----- Outcomes of the forms of trees, from those of their parts ----------

  function PrefixOutcome<V>(host: Host<V>, op: Token, o: Result<V>): Result<V> {
    match o
    case Ok(v) => Ok(if op.Bang? then host.bool2v(!host.truthy(v)) else host.negate(v))
    case Err(_) => o
  }

  function BinaryOutcome<V>(host: Host<V>, op: Token, l: Result<V>, r: Result<V>): Result<V> {
    if l.Err? then l
    else if Decides(host, op, l.value) then Err(UnexpectedEnd)
    else if r.Err? then r
    else Ok(Combine(host, op, l.value, r.value))
  }

  function DanglingOutcome<V>(host: Host<V>, op: Token, l: Result<V>): Result<V> {
    if l.Ok? && Decides(host, op, l.value) then Ok(host.bool2v(op.OrOr?)) else Err(UnexpectedEnd)
  }

  function ListOutcome<V>(host: Host<V>, vs: Result<seq<V>>): Result<V> {
    match vs case Ok(vs) => Ok(host.list(vs)) case Err(e) => Err(e)
  }

  function CallOutcome<V>(host: Host<V>, fn: Token, vs: Result<seq<V>>): Result<V> {
    match vs case Ok(vs) => host.call(NameOf(fn), vs) case Err(e) => Err(e)
  }

  function LiteralOutcome<V>(host: Host<V>, token: Token): Result<V> {
    host.literal(token)
  }

  function MoreOutcome<V>(first: Result<V>, rest: Result<seq<V>>): Result<seq<V>> {
    if first.Ok? && rest.Ok? then Ok([first.value] + rest.value) else Err(UnexpectedEnd)
  }

  /** A list of items parsed from `pos` up to its closer at `end`. */
  predicate ItemsLand<V(==)>(host: Host<V>, ts: seq<Token>, pos: nat, closer: Token, end: nat, o: Result<seq<V>>)
    requires pos <= |ts|
  {
    var r := Items(host, ts, pos, closer);
    if o.Ok? then r == Parsed(o.value, end + 1) else r.Failed?
  }

  // One lemma per form of tree, about positions and outcomes only.

  lemma BinaryStep<V>(host: Host<V>, op: Token, ts: seq<Token>, pos: nat, mid: nat, end: nat, k: nat,
                      l: Result<V>, r: Result<V>)
    requires k == OpLevel(op) && 1 <= k < UNARY && pos <= mid && Sees(ts, mid, op) && mid < end <= |ts|
    requires mid + 1 < |ts| && Starts(ts[mid + 1]) && Follows(ts, end, k)
    requires Lands(host, ts, pos, k, mid, l) && Lands(host, ts, mid + 1, k + 1, end, r)
    ensures Lands(host, ts, pos, k, end, BinaryOutcome(host, op, l, r))
  {
    hide Parse;
    if l.Ok? {
      if Decides(host, op, l.value) {
        StartsNoLoop(host, ts, mid + 1, k, host.bool2v(op.OrOr?));
      } else if r.Ok? {
        NoLoop(host, ts, end, k, r.value);
      } else {
        var right := Parse(host, ts, mid + 1, k + 1);
        if right.Parsed? { StartsNoLoop(host, ts, right.next, k, Combine(host, op, l.value, right.value)); }
      }
    }
  }

  /** Where no prefix operator stands, the unary level is a primary. */
  lemma AtPrimary<V>(host: Host<V>, ts: seq<Token>, pos: nat)
    requires pos <= |ts| && !Sees(ts, pos, Bang) && !Sees(ts, pos, Minus)
    ensures Parse(host, ts, pos, UNARY) == Primary(host, ts, pos)
  {
    assert Parse(host, ts, pos, UNARY) == Unary(host, ts, pos);
    assert Unary(host, ts, pos) == Primary(host, ts, pos);
  }

  /** No operand can be parsed where only a closer, a logical operator or the end may follow. */
  lemma {:induction false} NoOperand<V>(host: Host<V>, ts: seq<Token>, pos: nat, k: nat)
    requires pos <= |ts| && 1 <= k <= UNARY && Follows(ts, pos, 2)
    ensures Parse(host, ts, pos, k).Failed?
    decreases UNARY - k
  {
    if k < UNARY { NoOperand(host, ts, pos, k + 1); } else { AtPrimary(host, ts, pos); }
  }

  lemma DanglingStep<V>(host: Host<V>, op: Token, ts: seq<Token>, pos: nat, mid: nat, k: nat, l: Result<V>)
    requires k == OpLevel(op) && 1 <= k <= 2 && pos <= mid && Sees(ts, mid, op)
    requires Follows(ts, mid + 1, k) && Lands(host, ts, pos, k, mid, l)
    ensures Lands(host, ts, pos, k, mid + 1, DanglingOutcome(host, op, l))
  {
    NoOperand(host, ts, mid + 1, k + 1);
    hide Parse;
  }

  lemma GroupStep<V>(host: Host<V>, ts: seq<Token>, pos: nat, end: nat, o: Result<V>)
    requires Sees(ts, pos, LParen) && pos < end && Sees(ts, end, RParen)
    requires Lands(host, ts, pos + 1, 1, end, o)
    ensures Lands(host, ts, pos, UNARY, end + 1, o)
  {
    AtPrimary(host, ts, pos);
    hide Parse;
  }

  lemma PrefixStep<V>(host: Host<V>, op: Token, ts: seq<Token>, pos: nat, end: nat, o: Result<V>)
    requires op in {Bang, Minus} && Sees(ts, pos, op) && pos < end <= |ts|
    requires Lands(host, ts, pos + 1, UNARY, end, o)
    ensures Lands(host, ts, pos, UNARY, end, PrefixOutcome(host, op, o))
  {
    assert Parse(host, ts, pos, UNARY) == Unary(host, ts, pos);
    hide Parse;
  }

  lemma LiteralStep<V>(host: Host<V>, ts: seq<Token>, pos: nat)
    requires pos < |ts| && IsLiteral(ts[pos])
    ensures Lands(host, ts, pos, UNARY, pos + 1, LiteralOutcome(host, ts[pos]))
  {
    AtPrimary(host, ts, pos);
    hide Parse;
  }

  /** Parsing a list of items from `pos`: its values up to `end`, or stuck before a closer is found. */
  predicate AllLand<V(==)>(host: Host<V>, ts: seq<Token>, pos: nat, end: nat, o: Result<seq<V>>)
    requires pos <= |ts|
  {
    var r := Elements(host, ts, pos);
    if o.Ok? then r == Parsed(o.value, end)
    else r.Failed? || (r.next < |ts| && Starts(ts[r.next]))
  }

  lemma ItemsStep<V>(host: Host<V>, ts: seq<Token>, pos: nat, end: nat, closer: Token, o: Result<seq<V>>)
    requires closer in {RParen, RBracket} && pos <= end && Sees(ts, end, closer)
    requires if pos == end then o == Ok([]) else Starts(ts[pos]) && AllLand(host, ts, pos, end, o)
    ensures ItemsLand(host, ts, pos, closer, end, o)
  {
    hide Elements;
  }

  lemma ListStep<V>(host: Host<V>, ts: seq<Token>, pos: nat, end: nat, o: Result<seq<V>>)
    requires Sees(ts, pos, LBracket) && end < |ts|
    requires ItemsLand(host, ts, pos + 1, RBracket, end, o)
    ensures Lands(host, ts, pos, UNARY, end + 1, ListOutcome(host, o))
  {
    AtPrimary(host, ts, pos);
    hide Parse;
  }

  lemma CallStep<V>(host: Host<V>, ts: seq<Token>, pos: nat, end: nat, o: Result<seq<V>>)
    requires pos < |ts| && IsName(ts[pos]) && Sees(ts, pos + 1, LParen) && end < |ts|
    requires ItemsLand(host, ts, pos + 2, RParen, end, o)
    ensures Lands(host, ts, pos, UNARY, end + 1, CallOutcome(host, ts[pos], o))
  {
    AtPrimary(host, ts, pos);
    hide Parse;
  }

  // ----- Every printed tree ------------------------------------------------

  /** What lands at a tight level lands at every looser one. */
  lemma {:induction false} LandsBelow<V>(host: Host<V>, ts: seq<Token>, pos: nat, k: nat, j: nat, end: nat, o: Result<V>)
    requires pos <= |ts| && end <= |ts| && 1 <= k <= j <= UNARY && Follows(ts, end, k)
    requires Lands(host, ts, pos, j, end, o)
    ensures Lands(host, ts, pos, k, end, o)
    decreases j - k
  {
    if k < j {
      LandsBelow(host, ts, pos, k + 1, j, end, o);
      Loosen(host, ts, pos, k, end, o);
    }
  }

  /** The parts and the tokens of each form of tree. */
  lemma Shapes(t: Tree)
    requires WellFormed(t)
    ensures UNARY == 7 && 1 <= Level(t) <= UNARY
    ensures !t.Binary? && !t.Dangling? ==> Level(t) == UNARY
    ensures match t
            case Literal(token) => IsLiteral(token) && Bare(t) == [token]
            case Group(inner) => WellFormed(inner) && Bare(t) == [LParen] + Print(inner, 1) + [RParen]
            case List(items) =>
              (forall e :: e in items ==> WellFormed(e)) && Bare(t) == [LBracket] + PrintAll(items) + [RBracket]
            case Call(fn, args) =>
              IsName(fn) && (forall e :: e in args ==> WellFormed(e)) && Bare(t) == [fn] + [LParen] + PrintAll(args) + [RParen]
            case Not(e) => WellFormed(e) && Bare(t) == [Bang] + Print(e, UNARY)
            case Negate(e) => WellFormed(e) && Bare(t) == [Minus] + Print(e, UNARY)
            case Binary(op, l, r) =>
              && WellFormed(l) && WellFormed(r) && Level(t) == OpLevel(op) < UNARY
              && Bare(t) == Print(l, OpLevel(op)) + [op] + Print(r, OpLevel(op) + 1)
            case Dangling(op, l) =>
              WellFormed(l) && Level(t) == OpLevel(op) <= 2 && Bare(t) == Print(l, OpLevel(op)) + [op]
  {
    hide PrintAll, OpLevel, Bare, Print;
    BareOf(t);
    if t.Binary? || t.Dangling? { OpLevelBound(t.op); }
  }

  lemma OpLevelBound(op: Token)
    ensures OpLevel(op) < UNARY
  {
  }

  /** No parentheses where the tree binds tightly enough. */
  lemma Unwrapped(t: Tree, k: nat)
    requires k <= Level(t)
    ensures Print(t, k) == Bare(t)
  {
    hide Bare;
  }

  lemma BareOf(t: Tree)
    ensures match t
            case Group(inner) => Bare(t) == [LParen] + Print(inner, 1) + [RParen]
            case List(items) => Bare(t) == [LBracket] + PrintAll(items) + [RBracket]
            case Call(fn, args) => Bare(t) == [fn] + [LParen] + PrintAll(args) + [RParen]
            case Not(e) => Bare(t) == [Bang] + Print(e, UNARY)
            case Negate(e) => Bare(t) == [Minus] + Print(e, UNARY)
            case Binary(op, l, r) => Bare(t) == Print(l, OpLevel(op)) + [op] + Print(r, OpLevel(op) + 1)
            case Dangling(op, l) => Bare(t) == Print(l, OpLevel(op)) + [op]
            case Literal(token) => Bare(t) == [token]
  {
    hide PrintAll, OpLevel, Print;
    if t.Call? { assert [t.fn, LParen] == [t.fn] + [LParen]; }
  }

  lemma AtBound(ts: seq<Token>, pos: nat, p: seq<Token>)
    requires At(ts, pos, p)
    ensures pos + |p| <= |ts|
  {
  }

  /** The outcome of each form of tree, from those of its parts. */
  lemma OutcomeOf<V>(host: Host<V>, t: Tree)
    requires WellFormed(t)
    ensures var o := Outcome(host, t);
            match t
            case Literal(token) => Same(LiteralOutcome(host, token), o)
            case Group(inner) => Outcome(host, inner) == o
            case List(items) => Same(ListOutcome(host, Outcomes(host, items)), o)
            case Call(fn, args) => Same(CallOutcome(host, fn, Outcomes(host, args)), o)
            case Not(e) => Same(PrefixOutcome(host, Bang, Outcome(host, e)), o)
            case Negate(e) => Same(PrefixOutcome(host, Minus, Outcome(host, e)), o)
            case Binary(op, l, r) => Same(BinaryOutcome(host, op, Outcome(host, l), Outcome(host, r)), o)
            case Dangling(op, l) => Same(DanglingOutcome(host, op, Outcome(host, l)), o)
  {
  }

  /** Equal values, or both failures: `Lands` does not look at the error. */
  predicate Same<V(==)>(a: Result<V>, b: Result<V>) {
    a == b || (a.Err? && b.Err?)
  }

  lemma LandsSame<V>(host: Host<V>, ts: seq<Token>, pos: nat, k: nat, end: nat, a: Result<V>, b: Result<V>)
    requires pos <= |ts| && end <= |ts| && 1 <= k <= UNARY
    requires Same(a, b) && Lands(host, ts, pos, k, end, a)
    ensures Lands(host, ts, pos, k, end, b)
  {
  }

  lemma LooserFollows(ts: seq<Token>, pos: nat, k: nat, j: nat)
    requires Follows(ts, pos, k) && k <= j
    ensures Follows(ts, pos, j)
  {
  }

  /** The parser handles every printed tree, at every level, whatever may follow it. */
  lemma {:induction false} Handles<V>(host: Host<V>, t: Tree, k: nat, ts: seq<Token>, pos: nat)
    requires WellFormed(t) && 1 <= k <= UNARY && At(ts, pos, Print(t, k))
    requires Follows(ts, pos + |Print(t, k)|, k)
    ensures Lands(host, ts, pos, k, pos + |Print(t, k)|, Outcome(host, t))
    decreases t, if Level(t) < k then 4 else 2
  {
    hide *;
    Shapes(t);
    AtBound(ts, pos, Print(t, k));
    Parenthesised(host, t, k);
    var end := pos + |Print(t, k)|;
    if Level(t) < k {
      LooserFollows(ts, end, k, UNARY);
      GroupHandled(host, t, ts, pos);
      LandsBelow(host, ts, pos, k, UNARY, end, Outcome(host, t));
    } else {
      LooserFollows(ts, end, k, Level(t));
      OwnLevel(host, t, ts, pos);
      LandsBelow(host, ts, pos, k, Level(t), end, Outcome(host, t));
    }
  }

  lemma {:induction false} OwnLevel<V>(host: Host<V>, t: Tree, ts: seq<Token>, pos: nat)
    requires WellFormed(t) && At(ts, pos, Bare(t)) && Follows(ts, pos + |Bare(t)|, Level(t))
    ensures Lands(host, ts, pos, Level(t), pos + |Bare(t)|, Outcome(host, t))
    decreases t, 1
  {
    hide *;
    Shapes(t);
    match t
    case Binary(_, _, _) => BinaryHandled(host, t, ts, pos);
    case Dangling(_, _) => DanglingHandled(host, t, ts, pos);
    case Literal(_) => LiteralHandled(host, t, ts, pos);
    case Group(inner) => GroupHandled(host, inner, ts, pos); OutcomeOf(host, t);
    case Not(_) => PrefixHandled(host, t, ts, pos);
    case Negate(_) => PrefixHandled(host, t, ts, pos);
    case List(_) => ListHandled(host, t, ts, pos);
    case Call(_, _) => CallHandled(host, t, ts, pos);
  }

  lemma {:induction false} GroupHandled<V>(host: Host<V>, inner: Tree, ts: seq<Token>, pos: nat)
    requires WellFormed(inner) && At(ts, pos, Bare(Group(inner)))
    ensures Lands(host, ts, pos, UNARY, pos + |Bare(Group(inner))|, Outcome(host, inner))
    decreases inner, 3
  {
    hide *;
    Shapes(inner);
    Parenthesised(host, inner, 1);
    Shapes(Group(inner));
    var p := Print(inner, 1);
    AtSplit(ts, pos, [LParen] + p, [RParen]);
    AtSplit(ts, pos, [LParen], p);
    AtOne(ts, pos, LParen);
    AtOne(ts, pos + 1 + |p|, RParen);
    CloserFollows(ts, pos + 1 + |p|, 1);
    Handles(host, inner, 1, ts, pos + 1);
    GroupStep(host, ts, pos, pos + 1 + |p|, Outcome(host, inner));
  }

  lemma CloserFollows(ts: seq<Token>, pos: nat, k: nat)
    requires Sees(ts, pos, RParen) || Sees(ts, pos, RBracket) || Sees(ts, pos, Comma)
    ensures Follows(ts, pos, k)
  {
  }

  lemma AtFirst(ts: seq<Token>, pos: nat, p: seq<Token>)
    requires At(ts, pos, p) && p != []
    ensures pos < |ts| && ts[pos] == p[0]
  {
  }

  lemma LiteralHandled<V>(host: Host<V>, t: Tree, ts: seq<Token>, pos: nat)
    requires t.Literal? && WellFormed(t) && At(ts, pos, Bare(t))
    ensures Lands(host, ts, pos, UNARY, pos + |Bare(t)|, Outcome(host, t))
  {
    hide *;
    Shapes(t);
    OutcomeOf(host, t);
    AtFirst(ts, pos, Bare(t));
    LiteralStep(host, ts, pos);
    LandsSame(host, ts, pos, UNARY, pos + 1, LiteralOutcome(host, t.token), Outcome(host, t));
  }

  lemma {:induction false} PrefixHandled<V>(host: Host<V>, t: Tree, ts: seq<Token>, pos: nat)
    requires (t.Not? || t.Negate?) && WellFormed(t) && At(ts, pos, Bare(t)) && Follows(ts, pos + |Bare(t)|, UNARY)
    ensures Lands(host, ts, pos, UNARY, pos + |Bare(t)|, Outcome(host, t))
    decreases t, 0
  {
    hide *;
    Shapes(t);
    OutcomeOf(host, t);
    AtBound(ts, pos, Bare(t));
    var op := if t.Not? then Bang else Minus;
    var p := Print(t.operand, UNARY);
    AtSplit(ts, pos, [op], p);
    AtOne(ts, pos, op);
    SeesIt(ts, pos, op);
    Handles(host, t.operand, UNARY, ts, pos + 1);
    var o := Outcome(host, t.operand);
    PrefixStep(host, op, ts, pos, pos + |Bare(t)|, o);
    LandsSame(host, ts, pos, UNARY, pos + |Bare(t)|, PrefixOutcome(host, op, o), Outcome(host, t));
  }

  lemma SeesIt(ts: seq<Token>, pos: nat, t: Token)
    requires Sees(ts, pos, t)
    ensures pos < |ts| && ts[pos] == t
  {
  }

  lemma {:induction false} BinaryHandled<V>(host: Host<V>, t: Tree, ts: seq<Token>, pos: nat)
    requires t.Binary? && WellFormed(t) && At(ts, pos, Bare(t)) && Follows(ts, pos + |Bare(t)|, Level(t))
    ensures Lands(host, ts, pos, Level(t), pos + |Bare(t)|, Outcome(host, t))
    decreases t, 0
  {
    hide *;
    Shapes(t);
    OutcomeOf(host, t);
    AtBound(ts, pos, Bare(t));
    var k := OpLevel(t.op);
    FirstToken(t.right, k + 1);
    var pl, pr := Print(t.left, k), Print(t.right, k + 1);
    AtSplit(ts, pos, pl + [t.op], pr);
    AtSplit(ts, pos, pl, [t.op]);
    var mid, end := pos + |pl|, pos + |Bare(t)|;
    AtOne(ts, mid, t.op);
    SeesIt(ts, mid, t.op);
    AtFirst(ts, mid + 1, pr);
    OperatorFollows(ts, mid, k);
    LooserFollows(ts, end, k, k + 1);
    Handles(host, t.left, k, ts, pos);
    Handles(host, t.right, k + 1, ts, mid + 1);
    var l, r := Outcome(host, t.left), Outcome(host, t.right);
    BinaryStep(host, t.op, ts, pos, mid, end, k, l, r);
    LandsSame(host, ts, pos, k, end, BinaryOutcome(host, t.op, l, r), Outcome(host, t));
  }

  lemma OperatorFollows(ts: seq<Token>, pos: nat, k: nat)
    requires pos < |ts| && OpLevel(ts[pos]) == k && 1 <= k
    ensures Follows(ts, pos, k)
  {
  }

  lemma {:induction false} DanglingHandled<V>(host: Host<V>, t: Tree, ts: seq<Token>, pos: nat)
    requires t.Dangling? && WellFormed(t) && At(ts, pos, Bare(t)) && Follows(ts, pos + |Bare(t)|, Level(t))
    ensures Lands(host, ts, pos, Level(t), pos + |Bare(t)|, Outcome(host, t))
    decreases t, 0
  {
    hide *;
    Shapes(t);
    OutcomeOf(host, t);
    var k := OpLevel(t.op);
    var pl := Print(t.left, k);
    AtSplit(ts, pos, pl, [t.op]);
    var mid := pos + |pl|;
    AtOne(ts, mid, t.op);
    SeesIt(ts, mid, t.op);
    OperatorFollows(ts, mid, k);
    Handles(host, t.left, k, ts, pos);
    var l := Outcome(host, t.left);
    DanglingStep(host, t.op, ts, pos, mid, k, l);
    LandsSame(host, ts, pos, k, mid + 1, DanglingOutcome(host, t.op, l), Outcome(host, t));
  }

  // ----- Lists -------------------------------------------------------------

  function Outcomes<V>(host: Host<V>, es: seq<Tree>): Result<seq<V>> {
    if exists e :: e in es && Decided(host, e) then Err(UnexpectedEnd) else Meanings(host, es)
  }

  lemma OutcomesStep<V>(host: Host<V>, es: seq<Tree>)
    requires es != []
    ensures Same(MoreOutcome(Outcome(host, es[0]), Outcomes(host, es[1..])), Outcomes(host, es))
  {
    assert forall e :: e in es <==> e == es[0] || e in es[1..];
  }

  lemma PrintAllStep(es: seq<Tree>)
    requires es != []
    ensures PrintAll(es) == Print(es[0], 1) + if |es| == 1 then [] else [Comma] + PrintAll(es[1..])
  {
  }

  lemma {:induction false} ElementsHandled<V>(host: Host<V>, es: seq<Tree>, ts: seq<Token>, pos: nat)
    requires es != [] && (forall e :: e in es ==> WellFormed(e)) && At(ts, pos, PrintAll(es))
    requires var end := pos + |PrintAll(es)|; Sees(ts, end, RParen) || Sees(ts, end, RBracket)
    ensures AllLand(host, ts, pos, pos + |PrintAll(es)|, Outcomes(host, es))
    decreases es, 3
  {
    hide *;
    PrintAllStep(es);
    OutcomesStep(host, es);
    AtBound(ts, pos, PrintAll(es));
    Shapes(es[0]);
    var p := Print(es[0], 1);
    var end, next := pos + |PrintAll(es)|, pos + |p|;
    if |es| == 1 {
      assert p + [] == p;
      CloserFollows(ts, end, 1);
      Handles(host, es[0], 1, ts, pos);
      OneElement(host, ts, pos, end, Outcome(host, es[0]));
      NoOutcomes(host, es[1..]);
      AllLandSame(host, ts, pos, end, MoreOutcome(Outcome(host, es[0]), Outcomes(host, es[1..])), Outcomes(host, es));
    } else {
      AtSplit(ts, pos, p, [Comma] + PrintAll(es[1..]));
      AtSplit(ts, next, [Comma], PrintAll(es[1..]));
      AtOne(ts, next, Comma);
      CloserFollows(ts, next, 1);
      Handles(host, es[0], 1, ts, pos);
      ElementsHandled(host, es[1..], ts, next + 1);
      var first, rest := Outcome(host, es[0]), Outcomes(host, es[1..]);
      MoreElements(host, ts, pos, next, end, first, rest);
      AllLandSame(host, ts, pos, end, MoreOutcome(first, rest), Outcomes(host, es));
    }
  }

  lemma EitherCloser(ts: seq<Token>, pos: nat, closer: Token)
    requires closer in {RParen, RBracket} && Sees(ts, pos, closer)
    ensures Sees(ts, pos, RParen) || Sees(ts, pos, RBracket)
  {
  }

  lemma NoOutcomes<V>(host: Host<V>, es: seq<Tree>)
    requires es == []
    ensures Outcomes(host, es) == Ok([]) && PrintAll(es) == []
  {
  }

  lemma AllLandSame<V>(host: Host<V>, ts: seq<Token>, pos: nat, end: nat, a: Result<seq<V>>, b: Result<seq<V>>)
    requires pos <= |ts| && AllLand(host, ts, pos, end, a) && Same(a, b)
    ensures AllLand(host, ts, pos, end, b)
  {
  }

  lemma OneElement<V>(host: Host<V>, ts: seq<Token>, pos: nat, end: nat, o: Result<V>)
    requires pos <= |ts| && (Sees(ts, end, RParen) || Sees(ts, end, RBracket)) && Lands(host, ts, pos, 1, end, o)
    ensures AllLand(host, ts, pos, end, MoreOutcome(o, Ok([])))
  {
    hide Parse;
    if o.Ok? { assert [o.value] + [] == [o.value]; }
  }

  lemma MoreElements<V>(host: Host<V>, ts: seq<Token>, pos: nat, next: nat, end: nat, o: Result<V>, rest: Result<seq<V>>)
    requires pos <= next && Sees(ts, next, Comma)
    requires end <= |ts| && Lands(host, ts, pos, 1, next, o) && AllLand(host, ts, next + 1, end, rest)
    ensures AllLand(host, ts, pos, end, MoreOutcome(o, rest))
  {
    hide Parse;
  }

  lemma {:induction false} ItemsHandled<V>(host: Host<V>, es: seq<Tree>, ts: seq<Token>, pos: nat, closer: Token)
    requires (forall e :: e in es ==> WellFormed(e)) && At(ts, pos, PrintAll(es))
    requires closer in {RParen, RBracket} && Sees(ts, pos + |PrintAll(es)|, closer)
    ensures ItemsLand(host, ts, pos, closer, pos + |PrintAll(es)|, Outcomes(host, es))
    decreases es, 4
  {
    hide *;
    AtBound(ts, pos, PrintAll(es));
    if es != [] {
      FirstOfAll(es);
      AtFirst(ts, pos, PrintAll(es));
      EitherCloser(ts, pos + |PrintAll(es)|, closer);
      ElementsHandled(host, es, ts, pos);
    } else {
      NoOutcomes(host, es);
    }
    ItemsStep(host, ts, pos, pos + |PrintAll(es)|, closer, Outcomes(host, es));
  }

  lemma {:induction false} ListHandled<V>(host: Host<V>, t: Tree, ts: seq<Token>, pos: nat)
    requires t.List? && WellFormed(t) && At(ts, pos, Bare(t))
    ensures Lands(host, ts, pos, UNARY, pos + |Bare(t)|, Outcome(host, t))
    decreases t, 0
  {
    hide *;
    Shapes(t);
    OutcomeOf(host, t);
    var p := PrintAll(t.items);
    AtSplit(ts, pos, [LBracket] + p, [RBracket]);
    AtSplit(ts, pos, [LBracket], p);
    AtOne(ts, pos, LBracket);
    var end := pos + 1 + |p|;
    AtOne(ts, end, RBracket);
    SeesIt(ts, end, RBracket);
    ItemsHandled(host, t.items, ts, pos + 1, RBracket);
    var vs := Outcomes(host, t.items);
    ListStep(host, ts, pos, end, vs);
    LandsSame(host, ts, pos, UNARY, end + 1, ListOutcome(host, vs), Outcome(host, t));
  }

  lemma {:induction false} CallHandled<V>(host: Host<V>, t: Tree, ts: seq<Token>, pos: nat)
    requires t.Call? && WellFormed(t) && At(ts, pos, Bare(t))
    ensures Lands(host, ts, pos, UNARY, pos + |Bare(t)|, Outcome(host, t))
    decreases t, 0
  {
    hide *;
    Shapes(t);
    OutcomeOf(host, t);
    var p := PrintAll(t.args);
    AtSplit(ts, pos, [t.fn] + [LParen] + p, [RParen]);
    AtSplit(ts, pos, [t.fn] + [LParen], p);
    AtSplit(ts, pos, [t.fn], [LParen]);
    AtOne(ts, pos, t.fn);
    SeesIt(ts, pos, t.fn);
    AtOne(ts, pos + 1, LParen);
    var end := pos + 2 + |p|;
    AtOne(ts, end, RParen);
    SeesIt(ts, end, RParen);
    ItemsHandled(host, t.args, ts, pos + 2, RParen);
    var vs := Outcomes(host, t.args);
    CallStep(host, ts, pos, end, vs);
    LandsSame(host, ts, pos, UNARY, end + 1, CallOutcome(host, t.fn, vs), Outcome(host, t));
  }

  // ----- The parser on a whole expression ----------------------------------

  lemma LandsAtEnd<V>(host: Host<V>, ts: seq<Token>, o: Result<V>)
    requires Lands(host, ts, 0, 1, |ts|, o)
    ensures if o.Ok? then Evaluate(host, ts) == o else Evaluate(host, ts).Err?
  {
    hide Parse;
  }

  lemma AllOf(ts: seq<Token>)
    ensures At(ts, 0, ts) && Follows(ts, |ts|, 1)
  {
    assert ts[0..|ts|] == ts;
  }

  lemma OutcomeIff<V>(host: Host<V>, t: Tree)
    ensures Outcome(host, t).Ok? <==> Meaning(host, t).Ok? && !Decided(host, t)
    ensures Outcome(host, t).Ok? ==> Outcome(host, t) == Meaning(host, t)
  {
    hide Meaning, Decided;
  }

  /** An expression printed to tokens evaluates if and only if its tree-walk value exists and no
      logical operator with a right operand is decided by its left one; then the result is that value. */
  lemma EvaluatesIff<V>(host: Host<V>, t: Tree)
    requires WellFormed(t)
    ensures Evaluate(host, Print(t, 1)).Ok? <==> Meaning(host, t).Ok? && !Decided(host, t)
    ensures Evaluate(host, Print(t, 1)).Ok? ==> Evaluate(host, Print(t, 1)) == Meaning(host, t)
  {
    hide Lands, At, Follows, Outcome, Meaning, Decided, Evaluate, Print, WellFormed;
    var ts := Print(t, 1);
    AllOf(ts);
    Handles(host, t, 1, ts, 0);
    LandsAtEnd(host, ts, Outcome(host, t));
    OutcomeIff(host, t);
  }

  /** In particular an expression whose operands do not fail errs exactly when some `||` meets a
      truthy left value or some `&&` a falsy one; it never yields another value. */
  lemma ErrsExactlyWhenDecided<V>(host: Host<V>, t: Tree)
    requires WellFormed(t) && Complete(t) && Meaning(host, t).Ok?
    ensures if Decided(host, t) then Evaluate(host, Print(t, 1)).Err?
            else Evaluate(host, Print(t, 1)) == Meaning(host, t)
  {
    EvaluatesIff(host, t);
  }
}
