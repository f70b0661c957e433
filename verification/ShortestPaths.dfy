/** Weighted walks, and the priority queue as a multiset of items from which a least one is taken. */
module ShortestPaths {
  import opened Walks

  type Weight = (int, int) -> real

  function Length(w: Weight, p: seq<int>): real
  {
    if |p| <= 1 then 0.0 else w(p[0], p[1]) + Length(w, p[1..])
  }

  ghost predicate NonNegative(next: Succ, w: Weight)
  {
    forall x, y {:trigger w(x, y)} :: y in next(x) ==> w(x, y) >= 0.0
  }

  /** p is a walk from u to v of least total weight. */
  ghost predicate IsShortest(next: Succ, w: Weight, p: seq<int>, u: int, v: int)
  {
    IsWalk(next, p, u, v) && forall q :: IsWalk(next, q, u, v) ==> Length(w, p) <= Length(w, q)
  }

  /** The finite set of nodes holds all successors of its members. */
  ghost predicate Finite(next: Succ, all: set<int>)
  {
    forall x, y {:trigger y in next(x)} :: x in all && y in next(x) ==> y in all
  }

  lemma WalkTail(next: Succ, p: seq<int>, u: int, v: int)
    requires IsWalk(next, p, u, v) && |p| > 1
    ensures p[1] in next(u) && IsWalk(next, p[1..], p[1], v)
  {
    assert p[0 + 1] in next(p[0]);
  }

  lemma WalkCons(next: Succ, w: Weight, u: int, p: seq<int>, x: int, v: int)
    requires IsWalk(next, p, x, v) && x in next(u)
    ensures IsWalk(next, [u] + p, u, v) && Length(w, [u] + p) == w(u, x) + Length(w, p)
  {
    var q := [u] + p;
    assert q[1..] == p;
    forall i | 0 <= i < |q| - 1
      ensures q[i + 1] in next(q[i])
    {
      if i > 0 { assert q[i + 1] == p[i - 1 + 1] && q[i] == p[i - 1]; }
    }
  }

  lemma {:induction false} LengthNonNegative(next: Succ, w: Weight, p: seq<int>, u: int, v: int)
    requires NonNegative(next, w) && IsWalk(next, p, u, v)
    ensures Length(w, p) >= 0.0
    decreases |p|
  {
    if |p| > 1 {
      WalkTail(next, p, u, v);
      LengthNonNegative(next, w, p[1..], p[1], v);
    }
  }

  // ---------- the priority queue ----------

  datatype Item = Item(node: int, priority: real)

  predicate IsLeast(q: multiset<Item>, it: Item)
  {
    it in q && forall x :: x in q ==> it.priority <= x.priority
  }

  lemma LeastOfMore(rest: multiset<Item>, m: Item, it: Item)
    requires IsLeast(rest, m)
    ensures IsLeast(rest + multiset{it}, if it.priority <= m.priority then it else m)
  {}

  lemma {:induction false} LeastExists(q: multiset<Item>)
    requires q != multiset{}
    ensures exists it :: IsLeast(q, it)
    decreases |q|
  {
    var it :| it in q;
    var rest := q - multiset{it};
    assert q == rest + multiset{it};
    if rest == multiset{} {
      assert IsLeast(q, it);
    } else {
      LeastExists(rest);
      var m :| IsLeast(rest, m);
      LeastOfMore(rest, m, it);
    }
  }

  /** heap.Pop: any item of least priority. */
  method PopMin(q: multiset<Item>) returns (it: Item, rest: multiset<Item>)
    requires q != multiset{}
    ensures it in q && rest == q - multiset{it} && |rest| < |q|
    ensures forall x :: x in q ==> it.priority <= x.priority
  {
    LeastExists(q);
    it :| IsLeast(q, it);
    rest := q - multiset{it};
  }
}
