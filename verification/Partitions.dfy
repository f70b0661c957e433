/** Weighted edges between positions, and the sums that modularity is made of. */
module Partitions {
  datatype Edge = Edge(a: int, b: int, w: real)

  ghost predicate InRange(es: seq<Edge>, n: int)
  {
    forall k :: 0 <= k < |es| ==> 0 <= es[k].a < n && 0 <= es[k].b < n
  }

  ghost function Total(es: seq<Edge>): real
  {
    if |es| == 0 then 0.0 else Total(es[..|es| - 1]) + es[|es| - 1].w
  }

  /** The degree of a position; a self-loop counts twice. */
  ghost function Degree(es: seq<Edge>, i: int): real
  {
    if |es| == 0 then 0.0
    else
      var e := es[|es| - 1];
      Degree(es[..|es| - 1], i) + (if e.a == i then e.w else 0.0) + (if e.b == i then e.w else 0.0)
  }

  /** The weight inside communities. */
  ghost function Intra(es: seq<Edge>, c: seq<int>): real
    requires InRange(es, |c|)
  {
    if |es| == 0 then 0.0
    else
      var e := es[|es| - 1];
      Intra(es[..|es| - 1], c) + if c[e.a] == c[e.b] then e.w else 0.0
  }

  /** The sum of the degrees in the community l, edge by edge. */
  ghost function Volume(es: seq<Edge>, c: seq<int>, l: int): real
    requires InRange(es, |c|)
  {
    if |es| == 0 then 0.0
    else
      var e := es[|es| - 1];
      Volume(es[..|es| - 1], c, l) + (if c[e.a] == l then e.w else 0.0) + (if c[e.b] == l then e.w else 0.0)
  }

  /** The weight between two communities. */
  ghost function Between(es: seq<Edge>, c: seq<int>, l: int, m: int): real
    requires InRange(es, |c|)
  {
    if |es| == 0 then 0.0
    else
      var e := es[|es| - 1];
      Between(es[..|es| - 1], c, l, m) + if Crosses(e, c, l, m) then e.w else 0.0
  }

  ghost predicate Crosses(e: Edge, c: seq<int>, l: int, m: int)
    requires 0 <= e.a < |c| && 0 <= e.b < |c|
  {
    (c[e.a] == l && c[e.b] == m) || (c[e.a] == m && c[e.b] == l)
  }

  // ---------- sums over positions ----------

  /** The sum of deg over the members of community l. */
  function MemberSum(deg: seq<real>, c: seq<int>, l: int, n: nat): real
    requires n <= |deg| == |c|
  {
    if n == 0 then 0.0 else MemberSum(deg, c, l, n - 1) + if c[n - 1] == l then deg[n - 1] else 0.0
  }

  lemma {:induction false} MemberSumAdd(deg: seq<real>, c: seq<int>, l: int, n: nat, i: int, w: real)
    requires n <= |deg| == |c| && 0 <= i < |deg|
    ensures MemberSum(deg[i := deg[i] + w], c, l, n) == MemberSum(deg, c, l, n) + if i < n && c[i] == l then w else 0.0
  {
    if n > 0 { MemberSumAdd(deg, c, l, n - 1, i, w); }
  }

  lemma {:induction false} MemberSumZero(deg: seq<real>, c: seq<int>, l: int, n: nat)
    requires n <= |deg| == |c| && forall i :: 0 <= i < n ==> deg[i] == 0.0
    ensures MemberSum(deg, c, l, n) == 0.0
  {
    if n > 0 { MemberSumZero(deg, c, l, n - 1); }
  }

  /** The degrees as the loop over the edges accumulates them. */
  ghost function Degrees(es: seq<Edge>, n: nat): (deg: seq<real>)
    requires InRange(es, n)
    ensures |deg| == n
  {
    if |es| == 0 then seq(n, _ => 0.0)
    else
      var deg, e := Degrees(es[..|es| - 1], n), es[|es| - 1];
      var deg1 := deg[e.a := deg[e.a] + e.w];
      deg1[e.b := deg1[e.b] + e.w]
  }

  /** A volume is the sum of the members' degrees. */
  lemma {:induction false} VolumeIsMemberSum(es: seq<Edge>, c: seq<int>, l: int)
    requires InRange(es, |c|)
    ensures MemberSum(Degrees(es, |c|), c, l, |c|) == Volume(es, c, l)
  {
    if |es| == 0 {
      MemberSumZero(Degrees(es, |c|), c, l, |c|);
    } else {
      var before, e := es[..|es| - 1], es[|es| - 1];
      VolumeIsMemberSum(before, c, l);
      var deg := Degrees(before, |c|);
      MemberSumAdd(deg, c, l, |c|, e.a, e.w);
      MemberSumAdd(deg[e.a := deg[e.a] + e.w], c, l, |c|, e.b, e.w);
    }
  }

  // ---------- merging two communities ----------

  /** Everything in community m is put into community l. */
  function Merge(c: seq<int>, l: int, m: int): (d: seq<int>)
    ensures |d| == |c| && forall i :: 0 <= i < |c| ==> d[i] == if c[i] == m then l else c[i]
  {
    seq(|c|, i requires 0 <= i < |c| => if c[i] == m then l else c[i])
  }

  lemma {:induction false} MergeIntra(es: seq<Edge>, c: seq<int>, l: int, m: int)
    requires InRange(es, |c|) && l != m
    ensures Intra(es, Merge(c, l, m)) == Intra(es, c) + Between(es, c, l, m)
  {
    if |es| > 0 { MergeIntra(es[..|es| - 1], c, l, m); }
  }

  lemma {:induction false} MergeVolume(es: seq<Edge>, c: seq<int>, l: int, m: int, k: int)
    requires InRange(es, |c|) && l != m
    ensures Volume(es, Merge(c, l, m), k) ==
            if k == l then Volume(es, c, l) + Volume(es, c, m) else if k == m then 0.0 else Volume(es, c, k)
  {
    if |es| > 0 { MergeVolume(es[..|es| - 1], c, l, m, k); }
  }

  /** A positive weight between two communities comes from an edge between them. */
  lemma {:induction false} PositiveBetween(es: seq<Edge>, c: seq<int>, l: int, m: int)
    requires InRange(es, |c|) && Between(es, c, l, m) > 0.0
    ensures exists k :: 0 <= k < |es| && Crosses(es[k], c, l, m)
  {
    var last := |es| - 1;
    if !Crosses(es[last], c, l, m) {
      PositiveBetween(es[..last], c, l, m);
      var k :| 0 <= k < |es[..last]| && Crosses(es[..last][k], c, l, m);
      assert es[k] == es[..last][k];
    }
  }

  lemma {:induction false} VolumeNonNegative(es: seq<Edge>, c: seq<int>, l: int)
    requires InRange(es, |c|) && forall k :: 0 <= k < |es| ==> es[k].w >= 0.0
    ensures Volume(es, c, l) >= 0.0
  {
    if |es| > 0 { VolumeNonNegative(es[..|es| - 1], c, l); }
  }

  ghost function Volumes(es: seq<Edge>, c: seq<int>): int -> real
    requires InRange(es, |c|)
  {
    l => Volume(es, c, l)
  }

  /** share(v(0)) + ... + share(v(n - 1)). */
  ghost function Spread(v: int -> real, share: real -> real, n: nat): real
  {
    if n == 0 then 0.0 else Spread(v, share, n - 1) + share(v(n - 1))
  }

  lemma {:induction false} SpreadEqual(v: int -> real, u: int -> real, share: real -> real, n: nat)
    requires forall i :: 0 <= i < n ==> v(i) == u(i)
    ensures Spread(v, share, n) == Spread(u, share, n)
  {
    if n > 0 { SpreadEqual(v, u, share, n - 1); }
  }

  lemma {:induction false} SpreadOne(v: int -> real, u: int -> real, share: real -> real, n: nat, x: int)
    requires 0 <= x < n && forall i :: 0 <= i < n && i != x ==> v(i) == u(i)
    ensures Spread(v, share, n) - Spread(u, share, n) == share(v(x)) - share(u(x))
  {
    if x == n - 1 {
      SpreadEqual(v, u, share, n - 1);
    } else {
      SpreadOne(v, u, share, n - 1, x);
    }
  }

  /** Volumes that differ for two labels only. */
  lemma {:induction false} SpreadTwo(v: int -> real, u: int -> real, share: real -> real, n: nat, x: int, y: int)
    requires 0 <= x < n && 0 <= y < n && x != y
    requires forall i :: 0 <= i < n && i != x && i != y ==> v(i) == u(i)
    ensures Spread(v, share, n) - Spread(u, share, n) == share(v(x)) - share(u(x)) + share(v(y)) - share(u(y))
  {
    if n - 1 == x {
      SpreadOne(v, u, share, n - 1, y);
    } else if n - 1 == y {
      SpreadOne(v, u, share, n - 1, x);
    } else {
      SpreadTwo(v, u, share, n - 1, x, y);
    }
  }

  // ---------- moving one node ----------

  /** The weight of the edges that join position i to the community l, not counting self-loops. */
  ghost function Links(es: seq<Edge>, c: seq<int>, i: int, l: int): real
    requires InRange(es, |c|)
  {
    if |es| == 0 then 0.0
    else
      var e := es[|es| - 1];
      Links(es[..|es| - 1], c, i, l)
        + (if e.a == i && e.b != i && c[e.b] == l then e.w else 0.0)
        + (if e.b == i && e.a != i && c[e.a] == l then e.w else 0.0)
  }

  ghost function Loops(es: seq<Edge>, i: int): real
  {
    if |es| == 0 then 0.0
    else Loops(es[..|es| - 1], i) + if es[|es| - 1].a == i && es[|es| - 1].b == i then es[|es| - 1].w else 0.0
  }

  lemma {:induction false} MoveIntra(es: seq<Edge>, c: seq<int>, i: int, l: int)
    requires InRange(es, |c|) && 0 <= i < |c| && l != c[i]
    ensures Intra(es, c[i := l]) == Intra(es, c) + Links(es, c, i, l) - Links(es, c, i, c[i])
  {
    if |es| > 0 { MoveIntra(es[..|es| - 1], c, i, l); }
  }

  lemma {:induction false} MoveVolume(es: seq<Edge>, c: seq<int>, i: int, l: int, k: int)
    requires InRange(es, |c|) && 0 <= i < |c| && l != c[i]
    ensures Volume(es, c[i := l], k) ==
            if k == l then Volume(es, c, k) + Degree(es, i)
            else if k == c[i] then Volume(es, c, k) - Degree(es, i) else Volume(es, c, k)
  {
    if |es| > 0 { MoveVolume(es[..|es| - 1], c, i, l, k); }
  }
}
