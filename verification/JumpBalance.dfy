/** What the step of jump hashing computes, in integers, and how evenly it spreads the keys. */
module JumpBalance {
  import opened Counting
  import opened JumpHash

  // ---------- the step in integers ----------

  /** The divisor that the code takes from the upper 31 bits of the key. */
  function Divisor(key: Key): (d: int)
    ensures 1 <= d <= TWO_31
  {
    key / TWO_33 + 1
  }

  lemma FloorAtLeast(y: real, n: int)
    ensures y.Floor >= n <==> y >= n as real
  {}

  lemma QuotientAtLeast(x: real, t: real, d: real, n: real)
    requires d > 0.0
    ensures x * (t / d) >= n <==> x * t >= n * d
  {
    var q := t / d;
    assert q * d == t;
    ProductOf(x, q, d, t);
    Compare(x * q, n, d);
  }

  lemma ProductOf(x: real, q: real, d: real, t: real)
    requires q * d == t
    ensures (x * q) * d == x * t
  {}

  lemma Compare(a: real, b: real, d: real)
    requires d > 0.0
    ensures a >= b <==> a * d >= b * d
  {
    if a >= b { assert (a - b) * d >= 0.0; }
    if a < b { assert (b - a) * d > 0.0; }
  }

  lemma IntProducts(a: int, t: int, n: int, d: int)
    ensures (a as real) * (t as real) >= (n as real) * (d as real) <==> n * d <= a * t
  {
    assert (a as real) * (t as real) == (a * t) as real;
    assert (n as real) * (d as real) == (n * d) as real;
  }

  /** The next bucket is n or beyond exactly if n times the divisor is at most (b + 1) times 2^31. */
  lemma NextBucketAtLeast(b: int, key: Key, n: int)
    requires 0 <= b < TWO_31
    ensures NextBucket(b, key) >= n <==> n * Divisor(key) <= (b + 1) * TWO_31
  {
    var x, d := (b + 1) as real, Divisor(key) as real;
    assert Factor(key) == TWO_31_REAL / d;
    FloorAtLeast(x * Factor(key), n);
    QuotientAtLeast(x, TWO_31_REAL, d, n as real);
    IntProducts(b + 1, TWO_31, n, Divisor(key));
    assert TWO_31 as real == TWO_31_REAL;
  }

  lemma Monotone(a: int, b: int, n: int)
    requires a <= b && n > 0
    ensures n * a <= n * b
  {}

  lemma QuotientAtMost(n: int, d: int, x: int)
    requires n > 0
    ensures n * d <= x <==> d <= x / n
  {
    var q := x / n;
    assert n * q <= x < n * (q + 1);
    if d <= q { Monotone(d, q, n); } else { Monotone(q + 1, d, n); }
  }

  lemma QuotientIs(x: int, d: int, q: int)
    requires d > 0 && q * d <= x < (q + 1) * d
    ensures q == x / d
  {
    QuotientAtMost(d, q, x);
    QuotientAtMost(d, q + 1, x);
  }

  /** So it is their integer quotient. */
  lemma NextBucketIs(b: int, key: Key)
    requires 0 <= b < TWO_31
    ensures NextBucket(b, key) == (b + 1) * TWO_31 / Divisor(key)
  {
    var j := NextBucket(b, key);
    NextBucketAtLeast(b, key, j);
    NextBucketAtLeast(b, key, j + 1);
    QuotientIs((b + 1) * TWO_31, Divisor(key), j);
  }

  // ---------- the advanced key ----------

  /** The inverse of the multiplier modulo 2^64. */
  const INVERSE := 16133697096952638549

  /** The key that is advanced to this one. */
  function PreviousKey(key: Key): Key
  {
    (key - 1) * INVERSE % TWO_64
  }

  lemma SameRemainder(x: int, y: int, q: int)
    requires x == y + q * TWO_64 && 0 <= y < TWO_64
    ensures x % TWO_64 == y
  {}

  lemma BackAgain(key: Key)
    ensures PreviousKey(NextKey(key)) == key
  {
    var all := key * 2862933555777941757 + 1;
    assert NextKey(key) == all - all / TWO_64 * TWO_64;
    SameRemainder((NextKey(key) - 1) * INVERSE, key, key * 2503948805982125087 - all / TWO_64 * INVERSE);
  }

  lemma ForwardAgain(key: Key)
    ensures NextKey(PreviousKey(key)) == key
  {
    var all := (key - 1) * INVERSE;
    assert PreviousKey(key) == all - all / TWO_64 * TWO_64;
    SameRemainder(PreviousKey(key) * 2862933555777941757 + 1, key,
                  (key - 1) * 2503948805982125087 - all / TWO_64 * 2862933555777941757);
  }

  /** So advancing permutes the keys. */
  lemma NextKeyIsBijection(key: Key)
    ensures PreviousKey(NextKey(key)) == key && NextKey(PreviousKey(key)) == key
  {
    BackAgain(key);
    ForwardAgain(key);
  }

  // ---------- balance ----------

  /** The advanced keys that send a key from bucket b to bucket n or beyond. */
  ghost function Beyond(b: int, n: int): set<int>
    requires 0 <= b < TWO_31
  {
    set k | k in Range(TWO_64) && NextBucket(b, k) >= n
  }

  lemma ShareAtMost(b: int, n: int)
    requires 0 <= b < n
    ensures 0 <= (b + 1) * TWO_31 / n <= TWO_31
  {
    QuotientAtMost(n, TWO_31 + 1, (b + 1) * TWO_31);
    assert (n - (b + 1)) * TWO_31 >= 0;
  }

  /** Of the 2^31 divisors exactly (b + 1) * 2^31 / n do so, and each comes from 2^33 keys. */
  lemma BeyondSize(b: int, n: int)
    requires 0 <= b < n && b < TWO_31
    ensures |Beyond(b, n)| == (b + 1) * TWO_31 / n * TWO_33
  {
    var q := (b + 1) * TWO_31 / n;
    ShareAtMost(b, n);
    forall k
      ensures k in Beyond(b, n) <==> k in Range(q * TWO_33)
    {
      if k in Range(TWO_64) {
        NextBucketAtLeast(b, k, n);
        QuotientAtMost(n, Divisor(k), (b + 1) * TWO_31);
        assert k / TWO_33 + 1 <= q <==> k < q * TWO_33;
      }
    }
    assert Beyond(b, n) == Range(q * TWO_33);
  }

  /** The keys that go on from bucket b, with the same count as advancing permutes them. */
  ghost function GoesBeyond(b: int, n: int): set<int>
    requires 0 <= b < TWO_31
  {
    set k | k in Range(TWO_64) && NextBucket(b, NextKey(k)) >= n
  }

  ghost function Forward(k: int): int
  {
    if 0 <= k < TWO_64 then NextKey(k) else k
  }

  ghost function Backward(k: int): int
  {
    if 0 <= k < TWO_64 then PreviousKey(k) else k
  }

  lemma ForwardGoes(b: int, n: int, k: int)
    requires 0 <= b < TWO_31 && k in GoesBeyond(b, n)
    ensures Forward(k) in Beyond(b, n) && Backward(Forward(k)) == k
  {
    BackAgain(k);
  }

  lemma ComesFrom(b: int, n: int, k: int, p: Key)
    requires 0 <= b < TWO_31 && k in Beyond(b, n) && NextKey(p) == k
    ensures p in GoesBeyond(b, n)
  {}

  lemma BackwardGoes(b: int, n: int, k: int)
    requires 0 <= b < TWO_31 && k in Beyond(b, n)
    ensures Backward(k) in GoesBeyond(b, n) && Forward(Backward(k)) == k
  {
    ForwardAgain(k);
    ComesFrom(b, n, k, PreviousKey(k));
  }

  lemma SameCount(s: set<int>, t: set<int>)
    requires forall k :: k in s ==> Forward(k) in t && Backward(Forward(k)) == k
    requires forall k :: k in t ==> Backward(k) in s && Forward(Backward(k)) == k
    ensures |s| == |t|
  {
    BijectionSize(s, t, Forward, Backward);
  }

  lemma GoesBeyondSize(b: int, n: int)
    requires 0 <= b < n && b < TWO_31
    ensures |GoesBeyond(b, n)| == (b + 1) * TWO_31 / n * TWO_33
  {
    BeyondSize(b, n);
    forall k | k in GoesBeyond(b, n)
      ensures Forward(k) in Beyond(b, n) && Backward(Forward(k)) == k
    {
      ForwardGoes(b, n, k);
    }
    forall k | k in Beyond(b, n)
      ensures Backward(k) in GoesBeyond(b, n) && Forward(Backward(k)) == k
    {
      BackwardGoes(b, n, k);
    }
    SameCount(GoesBeyond(b, n), Beyond(b, n));
  }

  /** The keys that a number of buckets puts into the first one. */
  ghost function InFirst(n: Int32): set<int>
  {
    set k | k in Range(TWO_64) && Hash(ExactStep(), k, -1, 0, n) == 0
  }

  lemma InFirstIff(key: Key, n: Int32)
    requires n > 0
    ensures Hash(ExactStep(), key, -1, 0, n) == 0 <==> NextBucket(0, NextKey(key)) >= n
  {
    var step, k := ExactStep(), NextKey(key);
    var j := step(0, k);
    assert Hash(step, key, -1, 0, n) == Hash(step, k, 0, j, n);
    if j < n { HashRange(step, k, 0, j, n); }
  }

  lemma FirstIffBeyond(k: int, n: Int32)
    requires n > 0
    ensures k in InFirst(n) <==> k in GoesBeyond(0, n)
  {
    if k in Range(TWO_64) { InFirstIff(k, n); }
  }

  lemma FirstAreBeyond(n: Int32)
    requires n > 0
    ensures InFirst(n) == GoesBeyond(0, n)
  {
    forall k
      ensures k in InFirst(n) <==> k in GoesBeyond(0, n)
    {
      FirstIffBeyond(k, n);
    }
  }

  /** Of the 2^64 keys the first of n buckets gets 1/n, up to rounding the upper 31 bits. */
  lemma FirstBucketShare(n: Int32)
    requires n > 0
    ensures |InFirst(n)| == TWO_31 / n * TWO_33
  {
    GoesBeyondSize(0, n);
    FirstAreBeyond(n);
  }

  /** The example that the code documents: key 12345 visits the buckets 0, 1 and 29. */
  lemma Example()
    ensures Hash(ExactStep(), 12345, -1, 0, 10) == 1
    ensures JumpAt(ExactStep(), 12345, 1) == 1 && JumpAt(ExactStep(), 12345, 2) == 29
  {
    var k1: Key, k2: Key := 17399844924899645526, 1248776113516113151;
    assert NextKey(12345) == k1 && NextKey(k1) == k2;
    NextBucketIs(0, k1);
    NextBucketIs(1, k2);
    var step := ExactStep();
    assert step(0, k1) == 1 && step(1, k2) == 29;
    assert Hash(step, 12345, -1, 0, 10) == Hash(step, k1, 0, 1, 10) == Hash(step, k2, 1, 29, 10) == 1;
    assert KeyAt(12345, 1) == k1 && KeyAt(12345, 2) == k2;
  }
}
