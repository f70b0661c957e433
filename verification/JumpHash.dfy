/** Jump consistent hashing on a wrapping 64-bit key; the floating step is modelled as an exact floor. */
module JumpHash {
  const TWO_31 := 0x8000_0000
  const TWO_33 := 0x2_0000_0000
  const TWO_63 := 0x8000_0000_0000_0000
  const TWO_64 := 0x1_0000_0000_0000_0000

  type Key = k: int | 0 <= k < TWO_64
  type Int32 = n: int | -TWO_31 <= n < TWO_31

  function NextKey(key: Key): Key
  {
    (key * 2862933555777941757 + 1) % TWO_64
  }

  /** How the next candidate is computed from the current bucket and the advanced key. */
  type Step = (int, Key) -> int

  /** The only thing the guarantees need of it, with exact arithmetic or with any rounding. */
  ghost predicate Advances(step: Step)
  {
    forall b, k :: 0 <= b ==> b < step(b, k)
  }

  /** The loop from bucket b with the next candidate j. */
  ghost function Hash(step: Step, key: Key, b: int, j: int, buckets: Int32): int
    requires Advances(step) && 0 <= j
    decreases buckets - j
  {
    if j < buckets then Hash(step, NextKey(key), j, step(j, NextKey(key)), buckets) else b
  }

  /** The loop ends at or above the candidate it starts from. */
  lemma {:induction false} HashRange(step: Step, key: Key, b: int, j: int, buckets: Int32)
    requires Advances(step) && 0 <= j < buckets
    ensures j <= Hash(step, key, b, j, buckets) < buckets
    decreases buckets - j
  {
    var k := NextKey(key);
    if step(j, k) < buckets {
      HashRange(step, k, j, step(j, k), buckets);
    }
  }

  /** Minimal movement: with more buckets a key stays where it was or goes to a new bucket. */
  lemma {:induction false} GrowingMovesToNew(step: Step, key: Key, b: int, j: int, n: Int32, m: Int32)
    requires Advances(step) && 0 <= j && n < m
    ensures Hash(step, key, b, j, m) == Hash(step, key, b, j, n) || n <= Hash(step, key, b, j, m) < m
    decreases m - j
  {
    if j < n {
      GrowingMovesToNew(step, NextKey(key), j, step(j, NextKey(key)), n, m);
    } else if j < m {
      HashRange(step, key, b, j, m);
    }
  }

  /** So removing the last buckets moves only the keys that were in them. */
  lemma ShrinkingMovesOnlyLost(step: Step, key: Key, n: Int32, m: Int32)
    requires Advances(step) && 0 < n < m
    ensures Hash(step, key, -1, 0, n) == Hash(step, key, -1, 0, m) <==> Hash(step, key, -1, 0, m) < n
  {
    GrowingMovesToNew(step, key, -1, 0, n, m);
    HashRange(step, key, -1, 0, n);
  }

  // ---------- the jump sequence, which does not depend on the number of buckets ----------

  ghost function KeyAt(key: Key, i: nat): Key
  {
    if i == 0 then key else NextKey(KeyAt(key, i - 1))
  }

  ghost function JumpAt(step: Step, key: Key, i: nat): (c: int)
    requires Advances(step)
    ensures 0 <= c
  {
    if i == 0 then 0 else step(JumpAt(step, key, i - 1), KeyAt(key, i))
  }

  ghost predicate LastBelow(step: Step, key: Key, i: nat, buckets: int, c: int)
    requires Advances(step)
  {
    exists n: nat :: i <= n && c == JumpAt(step, key, n) < buckets <= JumpAt(step, key, n + 1)
  }

  lemma HashNext(step: Step, key: Key, i: nat, b: int, buckets: Int32)
    requires Advances(step) && JumpAt(step, key, i) < buckets
    ensures Hash(step, KeyAt(key, i), b, JumpAt(step, key, i), buckets) ==
            if JumpAt(step, key, i + 1) < buckets
            then Hash(step, KeyAt(key, i + 1), JumpAt(step, key, i), JumpAt(step, key, i + 1), buckets)
            else JumpAt(step, key, i)
  {
    var j, next := JumpAt(step, key, i), JumpAt(step, key, i + 1);
    assert KeyAt(key, i + 1) == NextKey(KeyAt(key, i)) && next == step(j, KeyAt(key, i + 1));
    assert Hash(step, KeyAt(key, i), b, j, buckets) == Hash(step, KeyAt(key, i + 1), j, next, buckets);
  }

  lemma LastBelowSooner(step: Step, key: Key, i: nat, buckets: Int32, bucket: int)
    requires Advances(step) && LastBelow(step, key, i + 1, buckets, bucket)
    ensures LastBelow(step, key, i, buckets, bucket)
  {}

  lemma {:induction false} HashIsLastJump(step: Step, key: Key, i: nat, b: int, buckets: Int32)
    requires Advances(step) && JumpAt(step, key, i) < buckets
    ensures LastBelow(step, key, i, buckets, Hash(step, KeyAt(key, i), b, JumpAt(step, key, i), buckets))
    decreases buckets - JumpAt(step, key, i)
  {
    var j, next := JumpAt(step, key, i), JumpAt(step, key, i + 1);
    HashNext(step, key, i, b, buckets);
    JumpAdvances(step, key, i);
    if next < buckets {
      HashIsLastJump(step, key, i + 1, j, buckets);
      LastBelowSooner(step, key, i, buckets, Hash(step, KeyAt(key, i + 1), j, next, buckets));
    } else {
      assert j == JumpAt(step, key, i) < buckets <= JumpAt(step, key, i + 1);
    }
  }

  lemma JumpAdvances(step: Step, key: Key, i: nat)
    requires Advances(step)
    ensures JumpAt(step, key, i) < JumpAt(step, key, i + 1)
  {}

  // ---------- the step of the program ----------

  const TWO_31_REAL := 2147483648.0

  /** 2^31 divided by a number from 1 to 2^31. */
  function Factor(key: Key): (f: real)
    ensures 1.0 <= f <= TWO_31_REAL
  {
    var d := (key / TWO_33 + 1) as real;
    QuotientBounds(TWO_31_REAL, d);
    TWO_31_REAL / d
  }

  lemma QuotientBounds(n: real, d: real)
    requires 1.0 <= d <= n
    ensures 1.0 <= n / d <= n
  {
    var q := n / d;
    assert q * d == n;
    if q < 1.0 { ScaleLess(q, 1.0, d); }
    if q > n { ScaleLess(n, q, d); Scale(n, d, d); }
  }

  lemma ScaleLess(a: real, b: real, d: real)
    requires a < b && d > 0.0
    ensures a * d < b * d
  {}

  lemma Scale(x: real, f: real, top: real)
    requires 0.0 <= x && 1.0 <= f <= top
    ensures x <= x * f <= x * top
  {}

  lemma ScaleConstant(x: real, f: real)
    requires 0.0 <= x <= 2147483648.0 && 1.0 <= f <= 2147483648.0
    ensures x <= x * f <= x * 2147483648.0 <= 4611686018427387904.0
  {
    Scale(x, f, 2147483648.0);
  }

  lemma FloorBounds(b: int, y: real)
    requires (b + 1) as real <= y <= 4611686018427387904.0
    ensures b < y.Floor < TWO_63
  {}

  /** The bucket that follows b; it fits into 64 bits. */
  function NextBucket(b: int, key: Key): (j: int)
    requires 0 <= b < TWO_31
    ensures b < j < TWO_63
  {
    var x := (b + 1) as real;
    var y := x * Factor(key);
    ScaleConstant(x, Factor(key));
    FloorBounds(b, y);
    y.Floor
  }

  ghost function ExactStep(): (step: Step)
    ensures Advances(step)
    ensures forall b, k :: 0 <= b < TWO_31 ==> step(b, k) == NextBucket(b, k)
  {
    (b: int, k: Key) => if 0 <= b < TWO_31 then NextBucket(b, k) else b + 1
  }

  method JumpHash(key: Key, buckets: Int32) returns (result: Int32)
    ensures result == Hash(ExactStep(), key, -1, 0, buckets)
    ensures if buckets > 0 then 0 <= result < buckets else result == -1
  {
    var b, j := -1, 0;
    var k := key;
    while j < buckets
      invariant 0 <= j < TWO_63 && -1 <= b && (b < buckets || b == -1) && (j > 0 ==> b >= 0)
      invariant Hash(ExactStep(), k, b, j, buckets) == Hash(ExactStep(), key, -1, 0, buckets)
      decreases buckets - j
    {
      b := j;
      k := NextKey(k);
      j := NextBucket(b, k);
    }
    return b;
  }
}
