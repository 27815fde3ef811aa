/** Experiment assignment: the 32-bit FNV-1a hash of a seed and the choice of a
    weighted variant from that hash, in exact integer arithmetic. */
module Assignment {

  // ----- FNV-1a ------------------------------------------------------------

  const HASH_SPACE := 0x1_0000_0000
  const OFFSET_BASIS := 2166136261
  const PRIME := 16777619
  const PRIME_INVERSE := 0x359C449B

  /** A 32-bit hash state, read as an unsigned number (`>>> 0`). */
  type Word = n: int | 0 <= n < HASH_SPACE witness 0

  /** A UTF-16 code unit. */
  type Unit = n: int | 0 <= n < 0x1_0000 witness 0

  /** Bitwise exclusive or of two non-negative numbers. */
  function Xor(a: nat, b: nat): nat {
    if a == 0 then b
    else if b == 0 then a
    else 2 * Xor(a / 2, b / 2) + (a % 2 + b % 2) % 2
  }

  lemma {:induction false} XorUndo(a: nat, b: nat)
    ensures Xor(Xor(a, b), b) == a
  {
    if a == 0 {
      XorSelf(b);
    } else if b != 0 {
      XorUndo(a / 2, b / 2);
      XorUndoBit(a, b);
    }
  }

  lemma XorUndoBit(a: nat, b: nat)
    requires Xor(Xor(a / 2, b / 2), b / 2) == a / 2
    ensures Xor(Xor(a, b), b) == a
  {
    hide Xor;
    XorHalves(a, b);
    XorStep(Xor(a, b), b);
    ParityUndo(a % 2, b % 2);
  }

  lemma ParityUndo(x: nat, y: nat)
    requires x < 2 && y < 2
    ensures ((x + y) % 2 + y) % 2 == x
  {
  }

  lemma XorHalves(a: nat, b: nat)
    ensures Xor(a, b) / 2 == Xor(a / 2, b / 2) && Xor(a, b) % 2 == (a % 2 + b % 2) % 2
  {
    XorStep(a, b);
    hide Xor;
  }

  lemma {:induction false} XorSelf(a: nat)
    ensures Xor(a, a) == 0
  {
    if a != 0 { XorSelf(a / 2); }
  }

  /** The recursion equation holds on zero arguments as well. */
  lemma XorStep(a: nat, b: nat)
    ensures Xor(a, b) == 2 * Xor(a / 2, b / 2) + (a % 2 + b % 2) % 2
  {
  }

  lemma {:induction false} XorSymmetric(a: nat, b: nat)
    ensures Xor(a, b) == Xor(b, a)
  {
    if a != 0 && b != 0 { XorSymmetric(a / 2, b / 2); }
  }

  function Pow2(n: nat): nat {
    if n == 0 then 1 else 2 * Pow2(n - 1)
  }

  lemma {:induction false} XorBounded(a: nat, b: nat, bits: nat)
    requires a < Pow2(bits) && b < Pow2(bits)
    ensures Xor(a, b) < Pow2(bits)
  {
    if a != 0 && b != 0 { XorBounded(a / 2, b / 2, bits - 1); }
  }

  lemma WordWidth()
    ensures Pow2(32) == HASH_SPACE
  {
    assert Pow2(8) == 256;
    assert Pow2(16) == 256 * Pow2(8);
    assert Pow2(24) == 256 * Pow2(16);
  }

  function Mix(h: Word, unit: Unit): (r: Word) {
    WordWidth();
    XorBounded(h, unit, 32);
    Xor(h, unit)
  }

  /** One round: xor in a code unit, multiply modulo 2^32 (`Math.imul`). */
  function Round(h: Word, unit: Unit): Word {
    (Mix(h, unit) * PRIME) % HASH_SPACE
  }

  function HashFrom(h: Word, units: seq<Unit>): Word
    decreases |units|
  {
    if units == [] then h else HashFrom(Round(h, units[0]), units[1..])
  }

  function Hash(units: seq<Unit>): Word {
    HashFrom(OFFSET_BASIS, units)
  }

  lemma {:induction false} HashFromAppend(h: Word, a: seq<Unit>, b: seq<Unit>)
    ensures HashFrom(h, a + b) == HashFrom(HashFrom(h, a), b)
    decreases |a|
  {
    if a == [] {
      assert a + b == b;
    } else {
      assert (a + b)[1..] == a[1..] + b;
      HashFromAppend(Round(h, a[0]), a[1..], b);
    }
  }

  /** The loop of the source computes the fold. */
  method ComputeHash(units: seq<Unit>) returns (hash: Word)
    ensures hash == Hash(units)
  {
    hash := OFFSET_BASIS;
    for index := 0 to |units|
      invariant hash == Hash(units[..index])
    {
      assert units[..index + 1] == units[..index] + [units[index]];
      HashFromAppend(OFFSET_BASIS, units[..index], [units[index]]);
      var mixed := Mix(hash, units[index]);
      hash := mixed * PRIME % HASH_SPACE;
    }
    assert units[..|units|] == units;
  }

  /** Exclusive or, bit by bit: bit `k` is set exactly when it is set in one of the two. */
  lemma {:induction false} XorBits(a: nat, b: nat, k: nat)
    ensures Bit(Xor(a, b), k) <==> Bit(a, k) != Bit(b, k)
  {
    XorHalves(a, b);
    hide Xor;
    if k > 0 { XorBits(a / 2, b / 2, k - 1); }
  }

  predicate Bit(n: nat, k: nat) {
    if k == 0 then n % 2 == 1 else Bit(n / 2, k - 1)
  }

  /** FNV-1a in numbers: the offset basis for nothing, and for one more code unit the exclusive or with it
      times the prime, modulo 2^32. */
  lemma HashByUnit(units: seq<Unit>, unit: Unit)
    ensures Hash([]) == 2166136261
    ensures Hash(units + [unit]) == Xor(Hash(units), unit) * 16777619 % 4294967296
  {
    HashFromAppend(OFFSET_BASIS, units, [unit]);
    hide Xor;
  }

  /** The prime is odd, so multiplying by it modulo 2^32 can be undone. */
  lemma PrimeIsInvertible(x: Word)
    ensures (x * PRIME % HASH_SPACE) * PRIME_INVERSE % HASH_SPACE == x
  {
    var q := x * PRIME / HASH_SPACE;
    assert (x * PRIME % HASH_SPACE) * PRIME_INVERSE == x + HASH_SPACE * (3513497 * x - q * PRIME_INVERSE);
  }

  /** A round is injective in the state for each unit, hence a bijection on 32-bit words. */
  lemma RoundInjectiveInState(h: Word, k: Word, unit: Unit)
    requires Round(h, unit) == Round(k, unit)
    ensures h == k
  {
    PrimeIsInvertible(Mix(h, unit));
    PrimeIsInvertible(Mix(k, unit));
    XorUndo(h, unit);
    XorUndo(k, unit);
  }

  lemma RoundInjectiveInUnit(h: Word, a: Unit, b: Unit)
    requires Round(h, a) == Round(h, b)
    ensures a == b
  {
    PrimeIsInvertible(Mix(h, a));
    PrimeIsInvertible(Mix(h, b));
    XorSymmetric(h, a);
    XorSymmetric(h, b);
    XorUndo(a, h);
    XorUndo(b, h);
  }

  /** Different states stay different under any common suffix. */
  lemma {:induction false} SuffixKeepsDifference(h: Word, k: Word, units: seq<Unit>)
    ensures HashFrom(h, units) == HashFrom(k, units) <==> h == k
    decreases |units|
  {
    if units != [] {
      SuffixKeepsDifference(Round(h, units[0]), Round(k, units[0]), units[1..]);
      if h != k && Round(h, units[0]) == Round(k, units[0]) {
        RoundInjectiveInState(h, k, units[0]);
      }
    }
  }

  /** Two seeds of equal length that differ in exactly one code unit never collide. */
  lemma OneUnitSensitivity(a: seq<Unit>, b: seq<Unit>, at: nat)
    requires |a| == |b| && at < |a| && a[at] != b[at]
    requires forall i :: 0 <= i < |a| && i != at ==> a[i] == b[i]
    ensures Hash(a) != Hash(b)
  {
    var prefix, suffix := a[..at], a[at + 1..];
    assert prefix == b[..at] && suffix == b[at + 1..];
    assert a == prefix + ([a[at]] + suffix) && b == prefix + ([b[at]] + suffix);
    var h := HashFrom(OFFSET_BASIS, prefix);
    HashFromAppend(OFFSET_BASIS, prefix, [a[at]] + suffix);
    HashFromAppend(OFFSET_BASIS, prefix, [b[at]] + suffix);
    assert HashFrom(h, [a[at]] + suffix) == HashFrom(Round(h, a[at]), suffix);
    assert HashFrom(h, [b[at]] + suffix) == HashFrom(Round(h, b[at]), suffix);
    SuffixKeepsDifference(Round(h, a[at]), Round(h, b[at]), suffix);
    if Round(h, a[at]) == Round(h, b[at]) {
      RoundInjectiveInUnit(h, a[at], b[at]);
    }
  }

  // ----- Weighted choice ---------------------------------------------------
  //
  // A hash h in [0, m) stands for the unit value h / m. Scaling the running bucket
  // by m turns every comparison of the source into one between integers.

  /** Total weight of the first `i` variants. */
  function Prefix(weights: seq<nat>, i: nat): nat
    requires i <= |weights|
  {
    if i == 0 then 0 else Prefix(weights, i - 1) + weights[i - 1]
  }

  function Total(weights: seq<nat>): nat {
    Prefix(weights, |weights|)
  }

  lemma {:induction false} PrefixMonotone(weights: seq<nat>, i: nat, j: nat)
    requires i <= j <= |weights|
    ensures Prefix(weights, i) <= Prefix(weights, j)
  {
    if i < j { PrefixMonotone(weights, i, j - 1); }
  }

  /** Variant `i` is the first whose cumulative share covers the hash. */
  ghost predicate CoversFirst(weights: seq<nat>, h: nat, m: nat, i: nat)
    requires i < |weights|
  {
    && h * Total(weights) <= Prefix(weights, i + 1) * m
    && (i > 0 ==> Prefix(weights, i) * m < h * Total(weights))
  }

  /** `weightedGraphExperimentVariant`: subtract each weight from the bucket and stop when
      the bucket is no longer positive; without any weight, spread the hash evenly. The
      second result says whether the loop ran out without stopping, which it never does. */
  method WeightedVariant(weights: seq<nat>, h: nat, m: nat) returns (chosen: nat, fellThrough: bool)
    requires 0 < |weights| && h < m
    ensures chosen < |weights|
    ensures 0 < Total(weights) ==> CoversFirst(weights, h, m, chosen)
    ensures chosen == Pick(weights, h, m)
    ensures !fellThrough
  {
    if Total(weights) == 0 {
      return EvenPick(h, m, |weights|), false;
    }
    chosen, fellThrough := |weights| - 1, true;
    var bucket := h * Total(weights);
    for i := 0 to |weights|
      invariant bucket == h * Total(weights) - Prefix(weights, i) * m
      invariant i > 0 ==> bucket > 0
    {
      PrefixScaled(weights, i, m);
      bucket := bucket - weights[i] * m;
      if bucket <= 0 {
        PickIff(weights, h, m, i);
        return i, false;
      }
    }
    BelowTotal(h, m, Total(weights));
    assert false;
  }

  /** Without weights the unit interval is cut into n equal parts. */
  function EvenPick(h: nat, m: nat, n: nat): (i: nat)
    requires h < m && 0 < n
    ensures i < n
  {
    DivideBound(n, m, h * n);
    BelowTotal(h, m, n);
    h * n / m
  }

  lemma PrefixScaled(weights: seq<nat>, i: nat, m: nat)
    requires i < |weights|
    ensures Prefix(weights, i + 1) * m == Prefix(weights, i) * m + weights[i] * m
  {
    Distribute(Prefix(weights, i), weights[i], m);
  }

  lemma Distribute(a: int, b: int, m: int)
    ensures (a + b) * m == a * m + b * m
  {
  }

  lemma BelowTotal(h: nat, m: nat, total: nat)
    requires h < m && 0 < total
    ensures h * total < total * m
  {
  }

  /** The choice as a function: `Select(weights, h, m, 0)` scans from the first variant. */
  function Select(weights: seq<nat>, h: nat, m: nat, from: nat): (i: nat)
    requires from < |weights|
    ensures from <= i < |weights|
    decreases |weights| - from
  {
    if h * Total(weights) <= Prefix(weights, from + 1) * m || from + 1 == |weights| then from
    else Select(weights, h, m, from + 1)
  }

  function Pick(weights: seq<nat>, h: nat, m: nat): (i: nat)
    requires 0 < |weights| && h < m
    ensures i < |weights|
  {
    if Total(weights) == 0 then
      EvenPick(h, m, |weights|)
    else
      Select(weights, h, m, 0)
  }

  lemma ScaleMonotone(a: nat, b: nat, m: nat)
    requires a <= b
    ensures a * m <= b * m
  {
  }

  lemma {:induction false} SelectCoversFirst(weights: seq<nat>, h: nat, m: nat, from: nat)
    requires 0 < Total(weights) && h < m && from < |weights|
    requires from > 0 ==> Prefix(weights, from) * m < h * Total(weights)
    ensures CoversFirst(weights, h, m, Select(weights, h, m, from))
    decreases |weights| - from
  {
    if h * Total(weights) <= Prefix(weights, from + 1) * m {
    } else if from + 1 == |weights| {
      BelowTotal(h, m, Total(weights));
    } else {
      SelectCoversFirst(weights, h, m, from + 1);
    }
  }

  /** Covering determines the variant, so the loop and the function agree. */
  lemma CoversFirstUnique(weights: seq<nat>, h: nat, m: nat, i: nat, j: nat)
    requires i < |weights| && j < |weights|
    requires CoversFirst(weights, h, m, i) && CoversFirst(weights, h, m, j)
    ensures i == j
  {
    if i < j {
      PrefixMonotone(weights, i + 1, j);
      ScaleMonotone(Prefix(weights, i + 1), Prefix(weights, j), m);
    } else if j < i {
      PrefixMonotone(weights, j + 1, i);
      ScaleMonotone(Prefix(weights, j + 1), Prefix(weights, i), m);
    }
  }

  lemma PickIff(weights: seq<nat>, h: nat, m: nat, i: nat)
    requires 0 < Total(weights) && h < m && i < |weights|
    ensures Pick(weights, h, m) == i <==> CoversFirst(weights, h, m, i)
  {
    SelectCoversFirst(weights, h, m, 0);
    if CoversFirst(weights, h, m, i) {
      CoversFirstUnique(weights, h, m, i, Pick(weights, h, m));
    }
  }

  // ----- How many hashes each variant receives -----------------------------

  /** Hashes 0 .. Bound - 1 fall within the first `i` variants. */
  function Bound(weights: seq<nat>, m: nat, i: nat): nat
    requires 0 < Total(weights) && i <= |weights|
  {
    if i == 0 then 0 else Cut(Prefix(weights, i) * m, Total(weights), m)
  }

  /** One past the last hash h below m with h * w <= x. */
  function Cut(x: nat, w: nat, m: nat): nat
    requires 0 < w
  {
    if x / w + 1 < m then x / w + 1 else m
  }

  lemma CutMonotone(x: nat, y: nat, w: nat, m: nat)
    requires 0 < w && x <= y
    ensures Cut(x, w, m) <= Cut(y, w, m) <= m
  {
    DivideBound(x / w, w, x);
    DivideBound(x / w, w, y);
  }

  lemma DivideBound(h: nat, w: nat, x: nat)
    requires 0 < w
    ensures h * w <= x <==> h <= x / w
  {
    var q := x / w;
    assert x == q * w + x % w;
    if h <= q {
      ScaleMonotone(h, q, w);
    } else {
      ScaleMonotone(q + 1, h, w);
      assert (q + 1) * w == q * w + w;
    }
  }

  /** Without weights variant `i` gets the i-th of n equal parts of the hashes. */
  lemma EvenShare(n: nat, h: nat, m: nat, i: nat)
    requires h < m && 0 < n
    ensures EvenPick(h, m, n) == i <==> i * m <= h * n < (i + 1) * m
  {
    DivideBound(i, m, h * n);
    DivideBound(i + 1, m, h * n);
  }

  lemma PickRange(weights: seq<nat>, h: nat, m: nat, i: nat)
    requires 0 < Total(weights) && h < m && i < |weights|
    ensures Pick(weights, h, m) == i <==> Bound(weights, m, i) <= h < Bound(weights, m, i + 1)
  {
    PickIff(weights, h, m, i);
    DivideBound(h, Total(weights), Prefix(weights, i + 1) * m);
    DivideBound(h, Total(weights), Prefix(weights, i) * m);
  }

  ghost function Hits(weights: seq<nat>, m: nat, i: nat): set<nat>
    requires 0 < |weights|
  {
    set h: nat | h < m && Pick(weights, h, m) == i
  }

  ghost predicate Between(lo: nat, h: nat, hi: nat) {
    lo <= h < hi
  }

  ghost function Interval(lo: nat, hi: nat): set<nat> {
    set h: nat | h < hi && Between(lo, h, hi)
  }

  lemma {:induction false} IntervalSize(lo: nat, hi: nat)
    requires lo <= hi
    ensures |Interval(lo, hi)| == hi - lo
  {
    if lo < hi {
      IntervalSize(lo, hi - 1);
      assert Interval(lo, hi) == Interval(lo, hi - 1) + {hi - 1};
    }
  }

  lemma BoundMonotone(weights: seq<nat>, m: nat, i: nat)
    requires 0 < Total(weights) && i < |weights|
    ensures Bound(weights, m, i) <= Bound(weights, m, i + 1) <= m
  {
    ScaleMonotone(Prefix(weights, i), Prefix(weights, i + 1), m);
    CutMonotone(Prefix(weights, i) * m, Prefix(weights, i + 1) * m, Total(weights), m);
    hide Cut;
  }

  /** Exact size of the share of each variant. */
  lemma HitCount(weights: seq<nat>, m: nat, i: nat)
    requires 0 < Total(weights) && 0 < m && i < |weights|
    ensures |Hits(weights, m, i)| == Bound(weights, m, i + 1) - Bound(weights, m, i)
  {
    BoundMonotone(weights, m, i);
    var lo, hi := Bound(weights, m, i), Bound(weights, m, i + 1);
    forall h: nat
      ensures h in Hits(weights, m, i) <==> lo <= h < hi
    {
      if h < m { PickRange(weights, h, m, i); }
    }
    assert Hits(weights, m, i) == Interval(lo, hi);
    IntervalSize(lo, hi);
  }

  /** Fairness: over all m hashes, variant `i` gets within one hash of weight_i * m / total. */
  lemma Fairness(weights: seq<nat>, m: nat, i: nat)
    requires 0 < Total(weights) && 0 < m && i < |weights|
    ensures var count := |Hits(weights, m, i)|;
            && (count - 1) * Total(weights) <= weights[i] * m
            && weights[i] * m <= (count + 1) * Total(weights)
  {
    HitCount(weights, m, i);
    PrefixMonotone(weights, i + 1, |weights|);
    CutBounds(weights, m, i);
    CutBounds(weights, m, i + 1);
    var lo, hi, w := Bound(weights, m, i), Bound(weights, m, i + 1), Total(weights);
    PrefixScaled(weights, i, m);
    WithinOneApart(lo, hi, w, Prefix(weights, i) * m, weights[i] * m);
  }

  lemma WithinOneApart(lo: nat, hi: nat, w: nat, start: int, share: int)
    requires start <= lo * w <= start + w
    requires start + share <= hi * w <= start + share + w
    ensures (hi - lo - 1) * w <= share <= (hi - lo + 1) * w
  {
    assert (hi - lo - 1) * w == hi * w - lo * w - w;
    assert (hi - lo + 1) * w == hi * w - lo * w + w;
  }

  /** Each boundary is off its exact position prefix * m / total by less than one hash. */
  lemma CutBounds(weights: seq<nat>, m: nat, i: nat)
    requires 0 < Total(weights) && 0 < m && i <= |weights|
    ensures Prefix(weights, i) * m <= Bound(weights, m, i) * Total(weights) <= Prefix(weights, i) * m + Total(weights)
  {
    if i > 0 {
      PrefixMonotone(weights, i, |weights|);
      ScaleMonotone(Prefix(weights, i), Total(weights), m);
      CutWithinOne(Prefix(weights, i) * m, Total(weights), m);
    }
  }

  lemma CutWithinOne(x: nat, w: nat, m: nat)
    requires 0 < w && 0 < m && x <= w * m
    ensures x <= Cut(x, w, m) * w <= x + w
  {
    DivideAtMost(x, w, m);
    DivideBound(x / w, w, x);
    DivideBound(x / w + 1, w, x);
    Distribute(x / w, 1, w);
  }

  lemma DivideAtMost(x: nat, w: nat, m: nat)
    requires 0 < w && x <= w * m
    ensures x / w <= m
  {
    DivideBound(m + 1, w, x);
    assert (m + 1) * w == w * m + w;
  }

  /** A variant of weight zero is chosen only when it comes first and the hash is zero. */
  lemma ZeroWeight(weights: seq<nat>, h: nat, m: nat)
    requires 0 < Total(weights) && h < m
    requires weights[Pick(weights, h, m)] == 0
    ensures Pick(weights, h, m) == 0 && h == 0
  {
    var i := Pick(weights, h, m);
    PickIff(weights, h, m, i);
    assert Prefix(weights, i + 1) == Prefix(weights, i);
    if i == 0 && 0 < h {
      assert h * Total(weights) >= Total(weights) by { ScaleMonotone(1, h, Total(weights)); }
    }
  }

  /** Whoever is within variants 0 .. i stays there when the prefix does not shrink. */
  lemma RampUp(before: seq<nat>, after: seq<nat>, h: nat, m: nat, i: nat)
    requires 0 < Total(before) == Total(after) && h < m
    requires i < |before| && i < |after|
    requires Prefix(before, i + 1) <= Prefix(after, i + 1)
    requires Pick(before, h, m) <= i
    ensures Pick(after, h, m) <= i
  {
    var p, q := Pick(before, h, m), Pick(after, h, m);
    PickIff(before, h, m, p);
    PickIff(after, h, m, q);
    PrefixMonotone(before, p + 1, i + 1);
    ScaleMonotone(Prefix(before, p + 1), Prefix(before, i + 1), m);
    ScaleMonotone(Prefix(before, i + 1), Prefix(after, i + 1), m);
    if i < q {
      PrefixMonotone(after, i + 1, q);
      ScaleMonotone(Prefix(after, i + 1), Prefix(after, q), m);
    }
  }

  // ----- The strict fixed split --------------------------------------------
  //
  // `bucketFor` divides the 32-bit digest prefix h by 2^32 - 1, not 2^32, and scales to 100.

  const DIGEST_MAX := 0xFFFF_FFFF

  /** Variant `i` is the first whose cumulative percentage lies strictly above the bucket. */
  ghost predicate StrictlyCoversFirst(weights: seq<nat>, h: Word, i: nat)
    requires i < |weights|
  {
    && 100 * h < Prefix(weights, i + 1) * DIGEST_MAX
    && Prefix(weights, i) * DIGEST_MAX <= 100 * h
  }

  /** `fixedWeightVariant`: walk a cursor over the weights and stop above the bucket. */
  method FixedWeightVariant(weights: seq<nat>, h: Word) returns (chosen: nat, fellThrough: bool)
    requires 0 < |weights|
    ensures chosen < |weights|
    ensures !fellThrough ==> StrictlyCoversFirst(weights, h, chosen)
    ensures fellThrough ==> chosen == |weights| - 1
    ensures fellThrough <==> Total(weights) * DIGEST_MAX <= 100 * h
    ensures chosen == FixedPick(weights, h, 0)
  {
    var cursor := 0;
    for i := 0 to |weights|
      invariant cursor == Prefix(weights, i)
      invariant cursor * DIGEST_MAX <= 100 * h
    {
      cursor := cursor + weights[i];
      if 100 * h < cursor * DIGEST_MAX {
        PrefixMonotone(weights, i + 1, |weights|);
        FixedPickCovers(weights, h, i);
        return i, false;
      }
    }
    if 1 < |weights| { FixedPickWithin(weights, h, 0, |weights| - 2); }
    chosen, fellThrough := |weights| - 1, true;
  }

  function FixedPick(weights: seq<nat>, h: Word, from: nat): (i: nat)
    requires from < |weights|
    ensures from <= i < |weights|
    decreases |weights| - from
  {
    if 100 * h < Prefix(weights, from + 1) * DIGEST_MAX || from + 1 == |weights| then from
    else FixedPick(weights, h, from + 1)
  }

  lemma {:induction false} FixedPickWithin(weights: seq<nat>, h: Word, from: nat, i: nat)
    requires from <= i < |weights|
    requires from > 0 ==> Prefix(weights, from) * DIGEST_MAX <= 100 * h
    ensures FixedPick(weights, h, from) <= i <==>
            100 * h < Prefix(weights, i + 1) * DIGEST_MAX || i + 1 == |weights|
    decreases |weights| - from
  {
    if 100 * h < Prefix(weights, from + 1) * DIGEST_MAX {
      PrefixMonotone(weights, from + 1, i + 1);
    } else if from + 1 < |weights| {
      if from < i {
        FixedPickWithin(weights, h, from + 1, i);
      }
    }
  }

  /** The loop agrees with the function. */
  lemma FixedPickCovers(weights: seq<nat>, h: Word, i: nat)
    requires i < |weights|
    requires StrictlyCoversFirst(weights, h, i)
    ensures FixedPick(weights, h, 0) == i
  {
    FixedPickWithin(weights, h, 0, i);
    if 0 < i { FixedPickWithin(weights, h, 0, i - 1); }
  }

  /** With weights that sum to 100, no cumulative share lies above the bucket only for the last hash. */
  lemma FixedFallThrough(weights: seq<nat>, h: Word)
    requires Total(weights) == 100
    ensures (forall i :: 0 <= i < |weights| ==> !StrictlyCoversFirst(weights, h, i)) <==> h == DIGEST_MAX
  {
    if h == DIGEST_MAX {
      forall i | 0 <= i < |weights|
        ensures !StrictlyCoversFirst(weights, h, i)
      {
        PrefixMonotone(weights, i + 1, |weights|);
      }
    } else {
      var i := FixedPick(weights, h, 0);
      FixedPickWithin(weights, h, 0, i);
      if 0 < i { FixedPickWithin(weights, h, 0, i - 1); }
      assert StrictlyCoversFirst(weights, h, i);
    }
  }

  lemma FixedRampUp(before: seq<nat>, after: seq<nat>, h: Word, i: nat)
    requires i < |before| == |after|
    requires Prefix(before, i + 1) <= Prefix(after, i + 1)
    requires FixedPick(before, h, 0) <= i
    ensures FixedPick(after, h, 0) <= i
  {
    FixedPickWithin(before, h, 0, i);
    FixedPickWithin(after, h, 0, i);
  }
}
