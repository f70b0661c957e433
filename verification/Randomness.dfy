/** Sources of nondeterminism: rand.Perm, rand.Intn and the order of map iteration. */
module Randomness {
  import opened Counting

  predicate IsPerm(p: seq<int>, n: nat)
  {
    && |p| == n && (forall i :: 0 <= i < n ==> 0 <= p[i] < n)
    && (forall v :: 0 <= v < n ==> v in p)
  }

  lemma IdentityIsPerm(n: nat)
    ensures IsPerm(seq(n, i => i), n)
  {
    var id := seq(n, i => i);
    forall v | 0 <= v < n
      ensures v in id
    {
      assert id[v] == v;
    }
  }

  /** Every number occurs once. */
  lemma PermNoRepeats(p: seq<int>, n: nat)
    requires IsPerm(p, n)
    ensures NoRepeats(p)
  {
    forall i, j | 0 <= i < j < |p|
      ensures p[i] != p[j]
    {
      if p[i] == p[j] {
        var q := p[..i] + p[i + 1..];
        forall v | v in Range(n)
          ensures v in q
        {
          assert v in p;
          var k :| 0 <= k < |p| && p[k] == v;
          assert v == if k < i then q[k] else if k == i then q[j - 1] else q[k - 1];
        }
        SubsetSize(Range(n), set x | x in q);
        ElementsSize(q);
      }
    }
  }

  method Perm(n: nat) returns (p: seq<int>)
    ensures IsPerm(p, n)
  {
    IdentityIsPerm(n);
    p :| IsPerm(p, n);
  }

  /** The next key when a map is iterated over: any one that is left. */
  method AnyOf<T(==)>(s: set<T>) returns (x: T)
    requires s != {}
    ensures x in s
  {
    assert (forall y :: y !in s) ==> s == {};
    x :| x in s;
  }

  /** rand.Intn. */
  method Intn(n: nat) returns (k: nat)
    requires n > 0
    ensures k < n
  {
    k :| k < n;
  }
}
