/** Cardinalities of finite sets, sequences without repetition, and how many sequences a finite set has. */
module Counting {
  lemma SubsetSize<A>(s: set<A>, t: set<A>)
    requires s <= t
    ensures |s| <= |t|
  {
    assert t == s + (t - s);
  }

  lemma SameSizeSubset<A>(s: set<A>, t: set<A>)
    requires s <= t && |s| == |t|
    ensures s == t
  {
    assert t == s + (t - s);
  }

  lemma {:induction false} InjectionSize<A, B>(s: set<A>, t: set<B>, f: A -> B)
    requires forall a :: a in s ==> f(a) in t
    requires forall a, b :: a in s && b in s && f(a) == f(b) ==> a == b
    ensures |s| <= |t|
  {
    if s != {} {
      var a :| a in s;
      InjectionSize(s - {a}, t - {f(a)}, f);
    }
  }

  lemma {:induction false} SurjectionSize<A, B>(s: set<A>, t: set<B>, f: A -> B)
    requires forall b :: b in t ==> exists a :: a in s && f(a) == b
    ensures |t| <= |s|
  {
    if t != {} {
      var b :| b in t;
      var a :| a in s && f(a) == b;
      forall c | c in t - {b}
        ensures exists d :: d in s - {a} && f(d) == c
      {
        var d :| d in s && f(d) == c;
        assert d in s - {a};
      }
      SurjectionSize(s - {a}, t - {b}, f);
    }
  }

  lemma BijectionSize<A, B>(s: set<A>, t: set<B>, f: A -> B, g: B -> A)
    requires forall a :: a in s ==> f(a) in t && g(f(a)) == a
    requires forall b :: b in t ==> g(b) in s && f(g(b)) == b
    ensures |s| == |t|
  {
    InjectionSize(s, t, f);
    InjectionSize(t, s, g);
  }

  /** The values f(0) + ... + f(n - 1). */
  ghost function Sum(f: int -> int, n: nat): int
  {
    if n == 0 then 0 else Sum(f, n - 1) + f(n - 1)
  }

  ghost function Fiber<A>(s: set<A>, f: A -> int, i: int): set<A>
  {
    set a | a in s && f(a) == i
  }

  ghost function FiberCount<A>(s: set<A>, f: A -> int): int -> int
  {
    i => |Fiber(s, f, i)|
  }

  ghost function Below<A>(s: set<A>, f: A -> int, n: int): set<A>
  {
    set a | a in s && f(a) < n
  }

  /** The fibres of a function into 0..n partition its domain. */
  lemma {:induction false} FiberSum<A>(s: set<A>, f: A -> int, n: nat)
    requires forall a :: a in s ==> 0 <= f(a)
    ensures Sum(FiberCount(s, f), n) == |Below(s, f, n)|
  {
    if n == 0 {
      assert Below(s, f, n) == {};
    } else {
      FiberSum(s, f, n - 1);
      assert Below(s, f, n) == Below(s, f, n - 1) + Fiber(s, f, n - 1);
      assert Below(s, f, n - 1) !! Fiber(s, f, n - 1);
    }
  }

  lemma {:induction false} SumOfFour(f: int -> int, g: int -> int, h: int -> int, k: int -> int, all: int -> int,
                                     n: nat)
    requires forall i :: 0 <= i < n ==> all(i) == f(i) + g(i) + h(i) + k(i)
    ensures Sum(all, n) == Sum(f, n) + Sum(g, n) + Sum(h, n) + Sum(k, n)
  {
    if n > 0 { SumOfFour(f, g, h, k, all, n - 1); }
  }

  function Range(n: nat): (s: set<int>)
    ensures |s| == n
    ensures forall i :: i in s <==> 0 <= i < n
  {
    if n == 0 then {} else Range(n - 1) + {n - 1}
  }

  ghost predicate NoRepeats(s: seq<int>)
  {
    forall i, j :: 0 <= i < j < |s| ==> s[i] != s[j]
  }

  ghost predicate Increasing(s: seq<int>)
  {
    forall i, j :: 0 <= i < j < |s| ==> s[i] < s[j]
  }

  lemma {:induction false} NoRepeatsSize(s: seq<int>)
    requires NoRepeats(s)
    ensures |set x | x in s| == |s|
  {
    if |s| > 0 {
      NoRepeatsSize(s[1..]);
      assert s == [s[0]] + s[1..];
      assert (set x | x in s) == (set x | x in s[1..]) + {s[0]};
    }
  }

  lemma {:induction false} ElementsSize(s: seq<int>)
    ensures |set x | x in s| <= |s|
  {
    if |s| > 0 {
      ElementsSize(s[1..]);
      assert s == [s[0]] + s[1..];
      assert (set x | x in s) == (set x | x in s[1..]) + {s[0]};
    }
  }

  lemma NoRepeatsFits(p: seq<int>, s: set<int>)
    requires NoRepeats(p) && forall i :: 0 <= i < |p| ==> p[i] in s
    ensures |p| <= |s|
  {
    NoRepeatsSize(p);
    forall x | x in p ensures x in s {}
    SubsetSize((set x | x in p), s);
  }

  // ---------- sequences over a finite set ----------

  function Pow(b: nat, e: nat): (p: nat)
    ensures b > 0 ==> p > 0
  {
    if e == 0 then 1 else b * Pow(b, e - 1)
  }

  lemma {:induction false} PowGrows(b: nat, m: nat, n: nat)
    requires b > 1 && m < n
    ensures Pow(b, m) < Pow(b, n)
    decreases n
  {
    if m < n - 1 { PowGrows(b, m, n - 1); }
    assert Pow(b, n) == b * Pow(b, n - 1);
    GrowsBy(b, Pow(b, n - 1));
  }

  lemma GrowsBy(b: nat, x: nat)
    requires b > 1 && x > 0
    ensures x < b * x
  {}

  /** The sequences of length n over s. */
  ghost function Words(s: set<int>, n: nat): set<seq<int>>
  {
    if n == 0 then {[]} else Longer(Words(s, n - 1), s)
  }

  ghost function Longer(ws: set<seq<int>>, s: set<int>): set<seq<int>>
  {
    set w, x | w in ws && x in s :: w + [x]
  }

  ghost function Endings(w: seq<int>, s: set<int>): set<seq<int>>
  {
    set x | x in s :: w + [x]
  }

  lemma LongerHas(ws: set<seq<int>>, s: set<int>, w: seq<int>, x: int)
    requires w in ws && x in s
    ensures w + [x] in Longer(ws, s)
  {}

  lemma LongerSplit(ws: set<seq<int>>, s: set<int>, w: seq<int>)
    requires w in ws
    ensures Longer(ws, s) <= Longer(ws - {w}, s) + Endings(w, s)
  {
    forall v | v in Longer(ws, s)
      ensures v in Longer(ws - {w}, s) + Endings(w, s)
    {
      var u, x :| u in ws && x in s && v == u + [x];
      if u != w { LongerHas(ws - {w}, s, u, x); }
    }
  }

  lemma {:induction false} LongerSize(ws: set<seq<int>>, s: set<int>)
    ensures |Longer(ws, s)| <= |ws| * |s|
  {
    if ws == {} {
      assert Longer(ws, s) == {};
    } else {
      var w :| w in ws;
      LongerSize(ws - {w}, s);
      SurjectionSize(s, Endings(w, s), x => w + [x]);
      LongerSplit(ws, s, w);
      SubsetSize(Longer(ws, s), Longer(ws - {w}, s) + Endings(w, s));
      assert |ws| * |s| == (|ws| - 1) * |s| + |s|;
    }
  }

  lemma {:induction false} WordsSize(s: set<int>, n: nat)
    ensures |Words(s, n)| <= Pow(|s|, n)
  {
    if n > 0 {
      WordsSize(s, n - 1);
      LongerSize(Words(s, n - 1), s);
      Scaled(|Words(s, n - 1)|, Pow(|s|, n - 1), |s|);
    }
  }

  lemma Scaled(x: nat, y: nat, k: nat)
    requires x <= y
    ensures x * k <= k * y
  {}

  lemma {:induction false} IsWord(w: seq<int>, s: set<int>)
    requires forall i :: 0 <= i < |w| ==> w[i] in s
    ensures w in Words(s, |w|)
  {
    if |w| > 0 {
      IsWord(w[..|w| - 1], s);
      LongerHas(Words(s, |w| - 1), s, w[..|w| - 1], w[|w| - 1]);
      assert w == w[..|w| - 1] + [w[|w| - 1]];
    }
  }

  lemma DistinctFit(ws: seq<seq<int>>, t: set<seq<int>>)
    requires forall k :: 0 <= k < |ws| ==> ws[k] in t
    requires forall i, j :: 0 <= i < j < |ws| ==> ws[i] != ws[j]
    ensures |ws| <= |t|
  {
    InjectionSize(Range(|ws|), t, k => if 0 <= k < |ws| then ws[k] else []);
  }
}
