/** matchPattern: the iterative matcher that backtracks to the last star only, on byte strings. */
module Wildcards {
  newtype Byte = x: int | 0 <= x < 256

  const STAR: Byte := '*' as Byte
  const QUERY: Byte := '?' as Byte

  /** The meaning of a pattern: a star stands for any bytes, a question mark for any single byte. */
  ghost predicate Matches(s: seq<Byte>, p: seq<Byte>)
    decreases p
  {
    if |p| == 0 then |s| == 0
    else if p[0] == STAR then exists k :: 0 <= k <= |s| && Matches(s[k..], p[1..])
    else |s| > 0 && (p[0] == QUERY || p[0] == s[0]) && Matches(s[1..], p[1..])
  }

  ghost predicate AllStars(p: seq<Byte>, j: int)
    requires 0 <= j <= |p|
    decreases |p| - j
  {
    j == |p| || (p[j] == STAR && AllStars(p, j + 1))
  }

  predicate Agrees(s: seq<Byte>, p: seq<Byte>, i: int, j: int)
    requires 0 <= i < |s| && 0 <= j <= |p|
  {
    j < |p| && (p[j] == QUERY || p[j] == s[i])
  }

  /** The loop, as a function of its variables; m is matchIdx. */
  ghost predicate Scan(s: seq<Byte>, p: seq<Byte>, i: int, j: int, star: int, m: int)
    requires 0 <= m <= i <= |s| && -1 <= star < j <= |p|
    decreases |p| - star, |s| - m, |s| - i
  {
    if i == |s| then AllStars(p, j)
    else if Agrees(s, p, i, j) then Scan(s, p, i + 1, j + 1, star, m)
    else if j < |p| && p[j] == STAR then Scan(s, p, i, j + 1, j, i)
    else if star != -1 then Scan(s, p, m + 1, star + 1, star, m + 1)
    else false
  }

  ghost predicate Accepts(s: seq<Byte>, p: seq<Byte>)
  {
    if |p| == 0 then |s| == 0 else p == [STAR] || Scan(s, p, 0, 0, -1, 0)
  }

  method MatchPattern(s: seq<Byte>, pattern: seq<Byte>) returns (b: bool)
    ensures b == Accepts(s, pattern)
    ensures b ==> Matches(s, pattern)
    ensures STAR !in s ==> (b <==> Matches(s, pattern))
  {
    AcceptsSound(s, pattern);
    AcceptsComplete(s, pattern);
    if pattern == [] { return s == []; }
    if pattern == [STAR] { return true; }
    var i, j := 0, 0;
    var starIdx, matchIdx := -1, 0;
    while i < |s|
      invariant 0 <= matchIdx <= i <= |s| && -1 <= starIdx < j <= |pattern|
      invariant Scan(s, pattern, i, j, starIdx, matchIdx) == Scan(s, pattern, 0, 0, -1, 0)
      decreases |pattern| - starIdx, |s| - matchIdx, |s| - i
    {
      if j < |pattern| && (pattern[j] == QUERY || pattern[j] == s[i]) {
        i := i + 1;
        j := j + 1;
      } else if j < |pattern| && pattern[j] == STAR {
        starIdx := j;
        matchIdx := i;
        j := j + 1;
      } else if starIdx != -1 {
        j := starIdx + 1;
        matchIdx := matchIdx + 1;
        i := matchIdx;
      } else {
        return false;
      }
    }
    while j < |pattern| && pattern[j] == STAR
      invariant 0 <= j <= |pattern| && AllStars(pattern, j) == Scan(s, pattern, 0, 0, -1, 0)
    {
      j := j + 1;
    }
    return j == |pattern|;
  }

  // ---------- soundness ----------

  lemma {:induction false} MatchesConcat(a: seq<Byte>, b: seq<Byte>, p: seq<Byte>, q: seq<Byte>)
    requires Matches(a, p) && Matches(b, q)
    ensures Matches(a + b, p + q)
    decreases p
  {
    if |p| == 0 {
      assert a + b == b && p + q == q;
    } else {
      assert (p + q)[1..] == p[1..] + q;
      if p[0] == STAR {
        var k :| 0 <= k <= |a| && Matches(a[k..], p[1..]);
        MatchesConcat(a[k..], b, p[1..], q);
        assert (a + b)[k..] == a[k..] + b;
      } else {
        MatchesConcat(a[1..], b, p[1..], q);
        assert (a + b)[1..] == a[1..] + b;
      }
    }
  }

  /** A star matches anything; any other pattern byte that agrees matches its byte. */
  lemma MatchesOne(s: seq<Byte>, c: Byte)
    ensures c == STAR ==> Matches(s, [c])
    ensures |s| == 1 && (c == QUERY || c == s[0]) ==> Matches(s, [c])
  {
    if c == STAR {
      assert Matches(s[|s|..], [c][1..]);
    } else if |s| == 1 {
      assert Matches(s[1..], [c][1..]);
    }
  }

  lemma {:induction false} AllStarsMatchEmpty(p: seq<Byte>, j: int)
    requires 0 <= j <= |p|
    ensures AllStars(p, j) <==> Matches([], p[j..])
    decreases |p| - j
  {
    if j < |p| {
      AllStarsMatchEmpty(p, j + 1);
      assert p[j..][1..] == p[j + 1..];
      var e: seq<Byte> := [];
      assert e[0..] == e;
    }
  }

  /** What has been consumed matches, up to here and up to the last star. */
  ghost predicate Consumed(s: seq<Byte>, p: seq<Byte>, i: int, j: int, star: int, m: int)
    requires 0 <= m <= i <= |s| && -1 <= star < j <= |p|
  {
    Matches(s[..i], p[..j]) && (star != -1 ==> p[star] == STAR && Matches(s[..m], p[..star + 1]))
  }

  lemma ConsumedStep(s: seq<Byte>, p: seq<Byte>, m: int, i: int, j: int)
    requires 0 <= m <= i <= |s| && 0 <= j < |p| && Matches(s[..m], p[..j])
    requires p[j] == STAR || (i == m + 1 && (p[j] == QUERY || p[j] == s[m]))
    ensures Matches(s[..i], p[..j + 1])
  {
    MatchesOne(s[m..i], p[j]);
    MatchesConcat(s[..m], s[m..i], p[..j], [p[j]]);
    assert s[..m] + s[m..i] == s[..i] && p[..j] + [p[j]] == p[..j + 1];
  }

  lemma {:induction false} ScanSound(s: seq<Byte>, p: seq<Byte>, i: int, j: int, star: int, m: int)
    requires 0 <= m <= i <= |s| && -1 <= star < j <= |p| && Consumed(s, p, i, j, star, m)
    requires Scan(s, p, i, j, star, m)
    ensures Matches(s, p)
    decreases |p| - star, |s| - m, |s| - i
  {
    if i == |s| {
      AllStarsMatchEmpty(p, j);
      MatchesConcat(s[..i], [], p[..j], p[j..]);
      assert s[..i] + [] == s && p[..j] + p[j..] == p;
    } else if Agrees(s, p, i, j) {
      ConsumedStep(s, p, i, i + 1, j);
      ScanSound(s, p, i + 1, j + 1, star, m);
    } else if j < |p| && p[j] == STAR {
      ConsumedStep(s, p, i, i, j);
      ScanSound(s, p, i, j + 1, j, i);
    } else {
      assert p[..star + 1] == p[..star] + [STAR] && s[..m + 1] == s[..m] + [s[m]];
      StarTakesMore(s[..m], s[m], p[..star]);
      ScanSound(s, p, m + 1, star + 1, star, m + 1);
    }
  }

  lemma {:induction false} StarTakesMore(a: seq<Byte>, c: Byte, q: seq<Byte>)
    requires Matches(a, q + [STAR])
    ensures Matches(a + [c], q + [STAR])
    decreases q
  {
    if |q| == 0 {
      MatchesOne(a + [c], STAR);
      assert q + [STAR] == [STAR];
    } else {
      assert (q + [STAR])[1..] == q[1..] + [STAR];
      if q[0] == STAR {
        var k :| 0 <= k <= |a| && Matches(a[k..], q[1..] + [STAR]);
        StarTakesMore(a[k..], c, q[1..]);
        assert (a + [c])[k..] == a[k..] + [c];
      } else {
        StarTakesMore(a[1..], c, q[1..]);
        assert (a + [c])[1..] == a[1..] + [c];
      }
    }
  }

  lemma AcceptsSound(s: seq<Byte>, p: seq<Byte>)
    ensures Accepts(s, p) ==> Matches(s, p)
  {
    if Accepts(s, p) && |p| > 0 {
      if p == [STAR] {
        MatchesOne(s, STAR);
      } else {
        assert s[..0] == [] && p[..0] == [];
        ScanSound(s, p, 0, 0, -1, 0);
      }
    }
  }

  // ---------- completeness on strings without stars ----------

  /** A star-free piece of the pattern consumes exactly its own length. */
  lemma {:induction false} StarFreePrefix(t: seq<Byte>, p: seq<Byte>, a: int, b: int)
    requires 0 <= a <= b <= |p| && Matches(t, p[a..]) && forall x :: a <= x < b ==> p[x] != STAR
    ensures b - a <= |t| && Matches(t[b - a..], p[b..])
    decreases b - a
  {
    if a < b {
      assert p[a..][1..] == p[a + 1..];
      StarFreePrefix(t[1..], p, a + 1, b);
      assert t[1..][b - a - 1..] == t[b - a..];
    } else {
      assert t[0..] == t;
    }
  }

  /** Some suffix of s from k on, k > m, matches what follows the star. */
  ghost predicate Later(s: seq<Byte>, p: seq<Byte>, star: int, m: int)
    requires 0 <= m <= |s| && -1 <= star < |p|
  {
    star != -1 && exists k :: m < k <= |s| && Matches(s[k..], p[star + 1..])
  }

  /** Since the last star the scan has consumed a star-free piece of the pattern, byte by byte. */
  ghost predicate SinceStar(p: seq<Byte>, i: int, j: int, star: int, m: int)
    requires -1 <= star < j <= |p|
  {
    star != -1 ==> i - m == j - (star + 1) && p[star] == STAR && forall x :: star < x < j ==> p[x] != STAR
  }

  /** At the end of s no later start is left, and the rest of the pattern is stars. */
  lemma CompleteAtEnd(s: seq<Byte>, p: seq<Byte>, j: int, star: int, m: int)
    requires 0 <= m <= |s| && -1 <= star < j <= |p| && star < |p| && SinceStar(p, |s|, j, star, m)
    requires Matches(s[|s|..], p[j..]) || Later(s, p, star, m)
    ensures AllStars(p, j)
  {
    if Later(s, p, star, m) {
      var k :| m < k <= |s| && Matches(s[k..], p[star + 1..]);
      StarFreePrefix(s[k..], p, star + 1, j);
      assert false;
    }
    assert s[|s|..] == [];
    AllStarsMatchEmpty(p, j);
  }

  lemma TailsMatch(s: seq<Byte>, p: seq<Byte>, i: int, j: int)
    requires 0 <= i < |s| && 0 <= j < |p| && p[j] != STAR && Matches(s[i..], p[j..])
    ensures Matches(s[i + 1..], p[j + 1..])
  {
    assert s[i..][1..] == s[i + 1..] && p[j..][1..] == p[j + 1..];
  }

  /** If no match starts behind the last star at m, then m can move on. */
  lemma LaterNext(s: seq<Byte>, p: seq<Byte>, star: int, m: int)
    requires 0 <= m <= |s| && -1 <= star < |p| && Later(s, p, star, m)
    ensures m < |s| && (Matches(s[m + 1..], p[star + 1..]) || Later(s, p, star, m + 1))
  {
    var k :| m < k <= |s| && Matches(s[k..], p[star + 1..]);
    if k == m + 1 { assert Matches(s[m + 1..], p[star + 1..]); }
  }

  /** If a match goes on from (i, j) or from a later start behind the last star, the scan finds one. */
  lemma {:induction false} ScanComplete(s: seq<Byte>, p: seq<Byte>, i: int, j: int, star: int, m: int)
    requires STAR !in s && 0 <= m <= i <= |s| && -1 <= star < j <= |p| && star < |p| && SinceStar(p, i, j, star, m)
    requires Matches(s[i..], p[j..]) || Later(s, p, star, m)
    ensures Scan(s, p, i, j, star, m)
    decreases |p| - star, |s| - m, |s| - i
  {
    if i == |s| {
      CompleteAtEnd(s, p, j, star, m);
    } else if Agrees(s, p, i, j) {
      assert s[i] in s && p[j] != STAR;
      if Matches(s[i..], p[j..]) { TailsMatch(s, p, i, j); }
      ScanComplete(s, p, i + 1, j + 1, star, m);
    } else if j < |p| && p[j] == STAR {
      NextStar(s, p, i, j, star, m);
      ScanComplete(s, p, i, j + 1, j, i);
    } else {
      Mismatch(s, p, i, j);
      LaterNext(s, p, star, m);
      ScanComplete(s, p, m + 1, star + 1, star, m + 1);
    }
  }

  lemma Mismatch(s: seq<Byte>, p: seq<Byte>, i: int, j: int)
    requires 0 <= i < |s| && 0 <= j <= |p| && !Agrees(s, p, i, j) && (j < |p| ==> p[j] != STAR)
    ensures !Matches(s[i..], p[j..])
  {}

  /** At a new star every way to match on, from here or from behind the old star, goes through it. */
  lemma NextStar(s: seq<Byte>, p: seq<Byte>, i: int, j: int, star: int, m: int)
    requires 0 <= m <= i <= |s| && -1 <= star < j < |p| && p[j] == STAR && SinceStar(p, i, j, star, m)
    requires Matches(s[i..], p[j..]) || Later(s, p, star, m)
    ensures Matches(s[i..], p[j + 1..]) || Later(s, p, j, i)
  {
    var from := i;
    if !Matches(s[i..], p[j..]) {
      var k :| m < k <= |s| && Matches(s[k..], p[star + 1..]);
      StarFreePrefix(s[k..], p, star + 1, j);
      from := k + (j - star - 1);
      assert s[k..][j - star - 1..] == s[from..];
    }
    assert Matches(s[from..], p[j..]) && p[j..][1..] == p[j + 1..];
    var n :| 0 <= n <= |s[from..]| && Matches(s[from..][n..], p[j + 1..]);
    assert s[from..][n..] == s[from + n..];
  }

  lemma AcceptsComplete(s: seq<Byte>, p: seq<Byte>)
    ensures STAR !in s && Matches(s, p) ==> Accepts(s, p)
  {
    if STAR !in s && Matches(s, p) && |p| > 0 && p != [STAR] {
      assert s[0..] == s && p[0..] == p;
      ScanComplete(s, p, 0, 0, -1, 0);
    }
  }

  // ---------- strings with stars ----------

  ghost function Queries(n: nat): (p: seq<Byte>)
    ensures |p| == n && forall i :: 0 <= i < n ==> p[i] == QUERY
  {
    seq(n, _ => QUERY)
  }

  lemma {:induction false} MatchesQueries(s: seq<Byte>)
    ensures Matches(s, Queries(|s|))
    decreases |s|
  {
    if |s| > 0 {
      MatchesQueries(s[1..]);
      assert Queries(|s|)[1..] == Queries(|s| - 1);
    }
  }

  lemma {:induction false} MatchesItself(s: seq<Byte>)
    ensures Matches(s, s)
    decreases |s|
  {
    if |s| > 0 {
      MatchesItself(s[1..]);
      assert s[1..] == s[1..][0..];
      if s[0] == STAR { assert Matches(s[1..], s[1..]); }
    }
  }

  /** A pattern one longer than s that agrees with s everywhere and ends in a question mark is rejected. */
  lemma {:induction false} ScanRunsOut(s: seq<Byte>, p: seq<Byte>, i: int)
    requires 0 <= i <= |s| && |p| == |s| + 1 && p[|s|] == QUERY
    requires forall x :: 0 <= x < |s| ==> p[x] == QUERY || p[x] == s[x]
    ensures !Scan(s, p, i, i, -1, 0)
    decreases |s| - i
  {
    if i < |s| { ScanRunsOut(s, p, i + 1); }
  }

  /** The pattern that keeps s up to and including a star and asks for one byte more than the rest has. */
  ghost function Missed(s: seq<Byte>, k: int): seq<Byte>
    requires 0 <= k < |s|
  {
    s[..k + 1] + Queries(|s| - k)
  }

  /** A star may stand for nothing. */
  lemma EmptyStar(a: seq<Byte>, b: seq<Byte>, q: seq<Byte>)
    requires Matches(b, q)
    ensures Matches(a + b, a + [STAR] + q)
  {
    MatchesItself(a);
    MatchesOne([], STAR);
    MatchesConcat(a, [], a, [STAR]);
    assert a + [] == a;
    MatchesConcat(a, b, a + [STAR], q);
  }

  lemma MissedParts(s: seq<Byte>, k: int)
    requires 0 <= k < |s| && s[k] == STAR
    ensures s[..k] + s[k..] == s && s[..k] + [STAR] + Queries(|s[k..]|) == Missed(s, k)
  {
    assert s[..k] + [STAR] == s[..k + 1];
  }

  lemma MissedMatches(s: seq<Byte>, k: int)
    requires 0 <= k < |s| && s[k] == STAR
    ensures Matches(s, Missed(s, k))
  {
    var a, b := s[..k], s[k..];
    MatchesQueries(b);
    EmptyStar(a, b, Queries(|b|));
    MissedParts(s, k);
  }

  lemma MissedAgrees(s: seq<Byte>, k: int, x: int)
    requires 0 <= k < |s| && 0 <= x <= |s|
    ensures |Missed(s, k)| == |s| + 1
    ensures Missed(s, k)[x] == QUERY || (x < |s| && Missed(s, k)[x] == s[x])
    ensures x == |s| ==> Missed(s, k)[x] == QUERY
  {
    if x > k { assert Missed(s, k)[x] == Queries(|s| - k)[x - (k + 1)]; }
  }

  /** It matches, the star standing for nothing, but the literal test consumes the star of s first. */
  lemma StarIsMissed(s: seq<Byte>, k: int)
    requires 0 <= k < |s| && s[k] == STAR
    ensures Matches(s, Missed(s, k)) && !Accepts(s, Missed(s, k))
  {
    MissedMatches(s, k);
    MissedAgrees(s, k, |s|);
    forall x | 0 <= x < |s|
      ensures Missed(s, k)[x] == QUERY || Missed(s, k)[x] == s[x]
    {
      MissedAgrees(s, k, x);
    }
    ScanRunsOut(s, Missed(s, k), 0);
  }

  /** The matcher is right on s for every pattern exactly when s holds no star. */
  lemma RightExactlyWithoutStar(s: seq<Byte>)
    ensures (forall p :: Accepts(s, p) <==> Matches(s, p)) <==> STAR !in s
  {
    if STAR in s {
      var k :| 0 <= k < |s| && s[k] == STAR;
      StarIsMissed(s, k);
    } else {
      forall p
        ensures Accepts(s, p) <==> Matches(s, p)
      {
        AcceptsSound(s, p);
        AcceptsComplete(s, p);
      }
    }
  }

  // ---------- what is still found on strings with stars ----------

  /** The pattern b is met byte by byte by a. */
  ghost predicate MetBy(b: seq<Byte>, a: seq<Byte>)
  {
    |a| == |b| && forall x :: 0 <= x < |a| ==> b[x] == QUERY || b[x] == a[x]
  }

  lemma {:induction false} AllStarsShift(b: seq<Byte>, p: seq<Byte>, j: int)
    requires 0 <= j <= |p|
    ensures AllStars(b + p, |b| + j) <==> AllStars(p, j)
    decreases |p| - j
  {
    if j < |p| { AllStarsShift(b, p, j + 1); }
  }

  /** The scan of the rest does not depend on what is in front. */
  lemma {:induction false} ScanShift(a: seq<Byte>, b: seq<Byte>, s: seq<Byte>, p: seq<Byte>, i: int, j: int, star: int,
                                     m: int)
    requires |a| == |b| && 0 <= m <= i <= |s| && -1 <= star < j <= |p|
    ensures var n := if star == -1 then 0 else |a|;
            Scan(a + s, b + p, |a| + i, |b| + j, n + star, n + m) <==> Scan(s, p, i, j, star, m)
    decreases |p| - star, |s| - m, |s| - i
  {
    if i == |s| {
      AllStarsShift(b, p, j);
    } else if Agrees(s, p, i, j) {
      ScanShift(a, b, s, p, i + 1, j + 1, star, m);
    } else if j < |p| && p[j] == STAR {
      ScanShift(a, b, s, p, i, j + 1, j, i);
    } else if star != -1 {
      ScanShift(a, b, s, p, m + 1, star + 1, star, m + 1);
    }
  }

  lemma {:induction false} ScanPrefix(t: seq<Byte>, q: seq<Byte>, i: int, n: int)
    requires 0 <= i <= n <= |t| && n <= |q| && MetBy(q[..n], t[..n])
    ensures Scan(t, q, i, i, -1, 0) <==> Scan(t, q, n, n, -1, 0)
    decreases n - i
  {
    if i < n {
      assert q[..n][i] == q[i] && t[..n][i] == t[i];
      ScanPrefix(t, q, i + 1, n);
    }
  }

  lemma ScanBehind(a: seq<Byte>, b: seq<Byte>, s: seq<Byte>, p: seq<Byte>)
    requires MetBy(b, a)
    ensures Scan(a + s, b + p, 0, 0, -1, 0) <==> Scan(s, p, 0, 0, -1, 0)
  {
    assert (a + s)[..|a|] == a && (b + p)[..|b|] == b;
    ScanPrefix(a + s, b + p, 0, |a|);
    ScanShift(a, b, s, p, 0, 0, -1, 0);
  }

  /** Behind a prefix that the pattern meets byte by byte, stars of the string included, and a rest without stars,
      exactly the matches of the rest are found. */
  lemma FoundBehindPrefix(a: seq<Byte>, b: seq<Byte>, s: seq<Byte>, p: seq<Byte>)
    requires MetBy(b, a) && STAR !in s && b + p != [STAR]
    ensures Accepts(a + s, b + p) <==> Matches(s, p)
  {
    ScanBehind(a, b, s, p);
    AcceptsSound(s, p);
    if Matches(s, p) && |p| > 0 {
      assert s[0..] == s && p[0..] == p;
      ScanComplete(s, p, 0, 0, -1, 0);
    } else if p == [STAR] {
      MatchesOne(s, STAR);
    }
  }

  // ---------- patterns with stars ----------

  /** Without a star there is no choice, so the scan finds every match. */
  lemma {:induction false} ScanPlain(s: seq<Byte>, p: seq<Byte>, i: int, j: int)
    requires STAR !in p && 0 <= i <= |s| && 0 <= j <= |p| && Matches(s[i..], p[j..])
    ensures Scan(s, p, i, j, -1, 0)
    decreases |s| - i
  {
    if i == |s| {
      assert s[i..] == [];
      AllStarsMatchEmpty(p, j);
    } else {
      assert |p[j..]| > 0 && p[j] in p;
      TailsMatch(s, p, i, j);
      ScanPlain(s, p, i + 1, j + 1);
    }
  }

  /** A string that begins with the whole pattern and goes on is rejected: every byte, also a star, is met literally. */
  lemma {:induction false} ScanPast(s: seq<Byte>, p: seq<Byte>, i: int)
    requires 0 <= i <= |p| < |s| && forall x :: 0 <= x < |p| ==> s[x] == p[x]
    ensures !Scan(s, p, i, i, -1, 0)
    decreases |p| - i
  {
    if i < |p| { ScanPast(s, p, i + 1); }
  }

  /** The pattern, and once more what follows the star. */
  ghost function Overlong(p: seq<Byte>, k: int): seq<Byte>
    requires 0 <= k < |p|
  {
    p + if k + 1 < |p| then p[k + 1..] else [QUERY]
  }

  lemma StarTakes(a: seq<Byte>, taken: seq<Byte>, q: seq<Byte>)
    ensures Matches(a + taken + q, a + [STAR] + q)
  {
    MatchesItself(a);
    MatchesOne(taken, STAR);
    MatchesItself(q);
    MatchesConcat(a, taken, a, [STAR]);
    MatchesConcat(a + taken, q, a + [STAR], q);
  }

  /** What the star takes in that string. */
  ghost function Taken(p: seq<Byte>, k: int): seq<Byte>
    requires 0 <= k < |p|
  {
    if k + 1 < |p| then [STAR] + p[k + 1..] else [STAR, QUERY]
  }

  lemma OverlongParts(p: seq<Byte>, k: int)
    requires 0 <= k < |p| && p[k] == STAR
    ensures p[..k] + [STAR] + p[k + 1..] == p && p[..k] + Taken(p, k) + p[k + 1..] == Overlong(p, k)
  {
    var q := p[k + 1..];
    if q == [] {
      assert p[..k] + [STAR, QUERY] == p + [QUERY] && p + [QUERY] + q == p + [QUERY];
    } else {
      assert p[..k] + ([STAR] + q) == p;
    }
  }

  lemma OverlongMatches(p: seq<Byte>, k: int)
    requires 0 <= k < |p| && p[k] == STAR
    ensures Matches(Overlong(p, k), p)
  {
    OverlongParts(p, k);
    StarTakes(p[..k], Taken(p, k), p[k + 1..]);
  }

  /** For each star of any other pattern than a single star, a string that matches and is rejected. */
  lemma StarMisses(p: seq<Byte>, k: int)
    requires 0 <= k < |p| && p[k] == STAR && p != [STAR]
    ensures Matches(Overlong(p, k), p) && !Accepts(Overlong(p, k), p)
  {
    OverlongMatches(p, k);
    ScanPast(Overlong(p, k), p, 0);
  }

  /** A pattern is right for every string exactly when it has no star, or is a star by itself. */
  lemma RightExactlyForPlainPatterns(p: seq<Byte>)
    ensures (forall s :: Accepts(s, p) <==> Matches(s, p)) <==> STAR !in p || p == [STAR]
  {
    if STAR !in p || p == [STAR] {
      forall s
        ensures Accepts(s, p) <==> Matches(s, p)
      {
        AcceptsSound(s, p);
        if Matches(s, p) && STAR !in p && |p| > 0 {
          assert s[0..] == s && p[0..] == p;
          ScanPlain(s, p, 0, 0);
        }
      }
    } else {
      var k :| 0 <= k < |p| && p[k] == STAR;
      StarMisses(p, k);
    }
  }
}
