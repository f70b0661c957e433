/** Tarjan's strongly connected components: the recursive closure strongConnect and its shared state. */
module Tarjan {
  import opened Walks

  ghost predicate Mutual(g: seq<seq<int>>, v: int, w: int)
  {
    Reaches(Adj(g), v, w) && Reaches(Adj(g), w, v)
  }

  /** The numbering gives two nodes one number exactly when each reaches the other, uses the numbers
      0, 1, ... without gaps, and no arc goes from a lower number to a higher one. */
  ghost predicate IsSccNumbering(g: seq<seq<int>>, component: seq<int>)
  {
    && |component| == |g| && WellFormed(g)
    && (forall v, w :: 0 <= v < |g| && 0 <= w < |g| ==> (component[v] == component[w] <==> Mutual(g, v, w)))
    && (forall v, w {:trigger w in g[v]} :: 0 <= v < |g| && w in g[v] ==> component[w] <= component[v])
    && (forall v :: 0 <= v < |g| ==> 0 <= component[v])
    && (forall v, c :: 0 <= v < |g| && 0 <= c < component[v] ==> c in component)
  }

  // ---------- the shared state, without the order of the stack ----------

  datatype State = State(
    index: int, onStack: seq<bool>, indices: seq<int>,
    defined: seq<bool>, component: seq<int>, currentComponent: int)
  {
    ghost predicate Done(v: int) {
      0 <= v < |defined| && |defined| == |onStack| && defined[v] && !onStack[v]
    }

    ghost predicate On(v: int) {
      0 <= v < |onStack| && onStack[v]
    }

    /** On the stack at or above position i of the numbering. */
    ghost predicate From(i: int, v: int) {
      On(v) && |onStack| == |indices| && i <= indices[v]
    }
  }

  ghost predicate Shape(g: seq<seq<int>>, s: State)
  {
    && WellFormed(g)
    && |s.onStack| == |s.indices| == |s.defined| == |s.component| == |g|
    && (forall v :: 0 <= v < |g| && s.onStack[v] ==> s.defined[v])
    && (forall v :: 0 <= v < |g| && s.defined[v] ==> 0 <= s.indices[v] < s.index)
    && 0 <= s.index && 0 <= s.currentComponent
  }

  /** What has been popped is a union of whole components, closed under successors and numbered in
      reverse topological order. */
  ghost predicate DoneOk(g: seq<seq<int>>, s: State)
    requires Shape(g, s)
  {
    && (forall v :: s.Done(v) ==> 0 <= s.component[v] < s.currentComponent)
    && (forall v, w {:trigger w in g[v]} :: s.Done(v) && w in g[v] ==> s.Done(w) && s.component[w] <= s.component[v])
    && (forall v, w {:trigger Mutual(g, v, w)} ::
          s.Done(v) && s.Done(w) ==> (s.component[v] == s.component[w] <==> Mutual(g, v, w)))
    && (forall c :: 0 <= c < s.currentComponent ==> IsUsed(s, c))
  }

  ghost predicate IsUsed(s: State, c: int)
  {
    exists v :: s.Done(v) && v < |s.component| && s.component[v] == c
  }

  /** The nodes whose call is still running (gray) reach all that is above them on the stack, and every
      stacked node reaches a gray node at or below it. */
  ghost predicate GrayOk(g: seq<seq<int>>, s: State, gray: set<int>)
    requires Shape(g, s)
  {
    && (forall x :: x in gray ==> s.On(x))
    && (forall v, w {:trigger w in g[v]} ::
          0 <= v < |g| && s.defined[v] && v !in gray && w in g[v] ==> s.defined[w])
    && (forall x, y {:trigger Reaches(Adj(g), x, y)} ::
          x in gray && s.On(x) && s.From(s.indices[x], y) ==> Reaches(Adj(g), x, y))
    && (forall y {:trigger HasAnchor(g, s, gray, y)} :: s.On(y) ==> HasAnchor(g, s, gray, y))
  }

  ghost predicate HasAnchor(g: seq<seq<int>>, s: State, gray: set<int>, y: int)
    requires Shape(g, s)
  {
    exists x :: x in gray && s.On(x) && s.From(s.indices[x], y) && Reaches(Adj(g), y, x)
  }

  ghost predicate Inv(g: seq<seq<int>>, s: State, gray: set<int>)
  {
    Shape(g, s) && DoneOk(g, s) && GrayOk(g, s, gray)
  }

  /** What s had defined keeps its data in t, and what is new has a larger index. */
  ghost predicate Extends(g: seq<seq<int>>, s: State, t: State)
    requires Shape(g, s) && Shape(g, t)
  {
    && s.index <= t.index
    && (forall v :: 0 <= v < |g| && s.defined[v] ==>
          t.defined[v] && t.indices[v] == s.indices[v] && t.onStack[v] == s.onStack[v])
    && (forall v :: 0 <= v < |g| && !s.defined[v] && t.defined[v] ==> s.index <= t.indices[v])
  }

  /** low is at most the index of every stacked node below `below` that a node stacked at or above `start`
      has an arc to. */
  ghost predicate LowBounds(g: seq<seq<int>>, s: State, start: int, below: int, low: int)
    requires Shape(g, s)
  {
    forall x, y {:trigger y in g[x]} ::
      s.From(start, x) && y in g[x] && s.On(y) && s.indices[y] < below ==> low <= s.indices[y]
  }

  /** low is the index of a stacked node that v reaches. */
  ghost predicate LowReached(g: seq<seq<int>>, s: State, v: int, low: int)
    requires Shape(g, s)
  {
    exists u :: s.On(u) && s.indices[u] == low && Reaches(Adj(g), v, u)
  }

  // ---------- the three steps on the specification state ----------

  ghost function Push(s: State, v: int): State
    requires 0 <= v < |s.onStack| == |s.indices| == |s.defined|
  {
    s.(index := s.index + 1, onStack := s.onStack[v := true],
       indices := s.indices[v := s.index], defined := s.defined[v := true])
  }

  lemma PushOk(g: seq<seq<int>>, s: State, gray: set<int>, v: int)
    requires Inv(g, s, gray) && 0 <= v < |g| && !s.defined[v]
    requires forall x :: x in gray ==> Reaches(Adj(g), x, v)
    ensures Inv(g, Push(s, v), gray + {v}) && Extends(g, s, Push(s, v))
    ensures LowBounds(g, Push(s, v), s.index + 1, s.index, s.index)
  {
    var t := Push(s, v);
    assert Shape(g, t);
    forall x
      ensures t.Done(x) <==> s.Done(x)
      ensures t.On(x) <==> s.On(x) || x == v
    {}
    assert DoneOk(g, t) by {
      forall c | 0 <= c < t.currentComponent
        ensures IsUsed(t, c)
      {
        assert IsUsed(s, c);
      }
    }
    forall y {:trigger HasAnchor(g, t, gray + {v}, y)} | t.On(y)
      ensures HasAnchor(g, t, gray + {v}, y)
    {
      if y == v {
        assert v in gray + {v} && t.From(t.indices[v], v);
      } else {
        assert HasAnchor(g, s, gray, y);
        var x :| x in gray && s.On(x) && s.From(s.indices[x], y) && Reaches(Adj(g), y, x);
        assert x in gray + {v} && t.On(x) && t.From(t.indices[x], y);
      }
    }
  }

  /** v stays on the stack: it becomes black, and the older node it reaches takes over as anchor. */
  lemma Blacken(g: seq<seq<int>>, s: State, gray: set<int>, v: int, low: int)
    requires Inv(g, s, gray + {v}) && v !in gray && s.On(v)
    requires forall w :: w in g[v] ==> 0 <= w < |g| && s.defined[w]
    requires low < s.indices[v] && LowReached(g, s, v, low)
    ensures Inv(g, s, gray)
  {
    var u :| s.On(u) && s.indices[u] == low && Reaches(Adj(g), v, u);
    assert HasAnchor(g, s, gray + {v}, u);
    var a :| a in gray + {v} && s.On(a) && s.From(s.indices[a], u) && Reaches(Adj(g), u, a);
    assert a in gray;
    forall y {:trigger HasAnchor(g, s, gray, y)} | s.On(y)
      ensures HasAnchor(g, s, gray, y)
    {
      assert HasAnchor(g, s, gray + {v}, y);
      var x :| x in gray + {v} && s.On(x) && s.From(s.indices[x], y) && Reaches(Adj(g), y, x);
      if x == v {
        ReachesTrans(Adj(g), y, v, u);
        ReachesTrans(Adj(g), y, u, a);
        assert s.From(s.indices[a], y);
      }
    }
  }

  /** t is s after the nodes stacked at or above i have been taken off the stack into component c. */
  ghost predicate Popped(g: seq<seq<int>>, s: State, t: State, i: int, c: int)
    requires |s.onStack| == |s.indices| == |s.component| == |g|
  {
    && t.index == s.index && t.indices == s.indices && t.defined == s.defined
    && |t.onStack| == |t.component| == |g|
    && (forall x :: 0 <= x < |g| ==> t.onStack[x] == (s.onStack[x] && s.indices[x] < i))
    && (forall x :: 0 <= x < |g| ==>
          t.component[x] == if s.onStack[x] && i <= s.indices[x] then c else s.component[x])
  }

  /** The situation in which the nodes stacked at or above v are popped. */
  ghost predicate ReadyToPop(g: seq<seq<int>>, s: State, gray: set<int>, v: int)
  {
    && Inv(g, s, gray + {v}) && s.On(v) && v !in gray
    && (forall x :: x in gray ==> s.On(x) && s.indices[x] < s.indices[v])
    && (forall w :: w in g[v] ==> 0 <= w < |g| && s.defined[w])
    && LowBounds(g, s, s.indices[v], s.indices[v], s.indices[v])
  }

  lemma SegmentClosed(g: seq<seq<int>>, s: State, gray: set<int>, v: int)
    requires ReadyToPop(g, s, gray, v)
    ensures forall x, y {:trigger y in g[x]} ::
              (s.From(s.indices[v], x) || s.Done(x)) && y in g[x] ==> s.From(s.indices[v], y) || s.Done(y)
  {
    forall x, y | (s.From(s.indices[v], x) || s.Done(x)) && y in g[x]
      ensures s.From(s.indices[v], y) || s.Done(y)
    {
      if !s.Done(x) {
        assert s.defined[y];
        assert s.On(y) || s.Done(y);
      }
    }
  }

  /** What is popped when lowlink[v] == indices[v] is exactly the component of v. */
  lemma SegmentIsComponent(g: seq<seq<int>>, s: State, gray: set<int>, v: int, z: int)
    requires ReadyToPop(g, s, gray, v)
    ensures s.From(s.indices[v], z) <==> Mutual(g, v, z) && !s.Done(z)
  {
    if s.From(s.indices[v], z) {
      assert v in gray + {v};
      assert Reaches(Adj(g), v, z);
      assert HasAnchor(g, s, gray + {v}, z);
      var x :| x in gray + {v} && s.On(x) && s.From(s.indices[x], z) && Reaches(Adj(g), z, x);
      if x != v {
        assert s.From(s.indices[x], v);
        assert Reaches(Adj(g), x, v);
        ReachesTrans(Adj(g), z, x, v);
      }
    } else if Reaches(Adj(g), v, z) {
      var c := iset x | s.From(s.indices[v], x) || s.Done(x);
      SegmentClosed(g, s, gray, v);
      forall x, y | x in c && y in Adj(g)(x) ensures y in c { assert y in g[x]; }
      assert Closed(Adj(g), c) && v in c;
    }
  }

  /** A popped node reaches popped nodes only. */
  lemma DoneNeverReaches(g: seq<seq<int>>, s: State, x: int, y: int)
    requires Shape(g, s) && DoneOk(g, s) && s.Done(x) && !s.Done(y)
    ensures !Reaches(Adj(g), x, y)
  {
    var c := iset z | s.Done(z);
    forall a, b | a in c && b in Adj(g)(a) ensures b in c { assert b in g[a]; }
    assert Closed(Adj(g), c) && x in c && y !in c;
  }

  lemma PopDoneOk(g: seq<seq<int>>, s: State, t: State, gray: set<int>, v: int)
    requires ReadyToPop(g, s, gray, v) && Popped(g, s, t, s.indices[v], s.currentComponent) &&
             t.currentComponent == s.currentComponent + 1
    ensures Shape(g, t) && DoneOk(g, t)
  {
    var i := s.indices[v];
    assert Shape(g, t);
    forall x
      ensures t.Done(x) <==> s.Done(x) || s.From(i, x)
      ensures s.From(i, x) ==> !s.Done(x) && t.component[x] == s.currentComponent
      ensures s.Done(x) ==> t.component[x] == s.component[x]
    {}
    SegmentClosed(g, s, gray, v);
    forall x, y | t.Done(x) && t.Done(y)
      ensures t.component[x] == t.component[y] <==> Mutual(g, x, y)
    {
      SegmentIsComponent(g, s, gray, v, x);
      SegmentIsComponent(g, s, gray, v, y);
      if s.From(i, x) && s.From(i, y) {
        ReachesTrans(Adj(g), x, v, y);
        ReachesTrans(Adj(g), y, v, x);
      } else if s.From(i, x) {
        DoneNeverReaches(g, s, y, x);
      } else if s.From(i, y) {
        DoneNeverReaches(g, s, x, y);
      }
    }
    assert t.Done(v);
    forall c | 0 <= c < t.currentComponent
      ensures IsUsed(t, c)
    {
      if c < s.currentComponent {
        assert IsUsed(s, c);
        var x :| s.Done(x) && s.component[x] == c;
        assert t.Done(x);
      }
    }
  }

  lemma PopOk(g: seq<seq<int>>, s: State, t: State, gray: set<int>, v: int)
    requires ReadyToPop(g, s, gray, v) && Popped(g, s, t, s.indices[v], s.currentComponent) &&
             t.currentComponent == s.currentComponent + 1
    ensures Inv(g, t, gray)
  {
    PopDoneOk(g, s, t, gray, v);
    forall x
      ensures t.On(x) <==> s.On(x) && s.indices[x] < s.indices[v]
    {}
    forall y {:trigger HasAnchor(g, t, gray, y)} | t.On(y)
      ensures HasAnchor(g, t, gray, y)
    {
      assert HasAnchor(g, s, gray + {v}, y);
      var x :| x in gray + {v} && s.On(x) && s.From(s.indices[x], y) && Reaches(Adj(g), y, x);
      assert x in gray && t.On(x) && t.From(t.indices[x], y);
    }
    forall x, w | 0 <= x < |g| && t.defined[x] && x !in gray && w in g[x]
      ensures t.defined[w]
    {
      assert x == v || x !in gray + {v};
    }
    forall x, y | x in gray && t.On(x) && t.From(t.indices[x], y)
      ensures Reaches(Adj(g), x, y)
    {
      assert x in gray + {v} && s.From(s.indices[x], y);
    }
  }

  /** The stack lists the stacked nodes in the order of their indices. */
  ghost predicate StackIs(stack: seq<int>, s: State)
  {
    && |s.indices| == |s.onStack|
    && (forall k :: 0 <= k < |stack| ==> s.On(stack[k]))
    && (forall v :: s.On(v) ==> v in stack)
    && (forall a, b :: 0 <= a < b < |stack| ==> s.indices[stack[a]] < s.indices[stack[b]])
  }

  lemma PushStack(g: seq<seq<int>>, s: State, stack: seq<int>, v: int)
    requires Shape(g, s) && StackIs(stack, s) && 0 <= v < |g| && !s.defined[v]
    ensures StackIs(stack + [v], Push(s, v))
  {
    var t := Push(s, v);
    forall x | t.On(x)
      ensures x in stack + [v]
    {
      assert x == v || s.On(x);
    }
    forall k | 0 <= k < |stack| + 1
      ensures t.On((stack + [v])[k])
      ensures k < |stack| ==> t.indices[stack[k]] == s.indices[stack[k]] < s.index
    {
      assert k < |stack| ==> s.On(stack[k]);
    }
  }

  /** Only the m-th stacked node has an index from its own up to low, the index of the one above it. */
  lemma TopBetween(stack: seq<int>, s: State, m: int, low: int)
    requires StackIs(stack, s) && 0 < m <= |stack|
    requires if m == |stack| then forall x :: s.On(x) ==> s.indices[x] < low else low == s.indices[stack[m]]
    ensures forall x :: s.On(x) ==> (s.indices[stack[m - 1]] <= s.indices[x] < low <==> x == stack[m - 1])
  {
    forall x | s.On(x)
      ensures s.indices[stack[m - 1]] <= s.indices[x] < low <==> x == stack[m - 1]
    {
      var a :| 0 <= a < |stack| && stack[a] == x;
      assert s.On(stack[m - 1]);
      if m < |stack| { assert s.indices[stack[m - 1]] < s.indices[stack[m]]; }
    }
  }

  lemma PopStep(g: seq<seq<int>>, s: State, full: seq<int>, t: State, m: int, low: int)
    requires |s.onStack| == |s.indices| == |s.component| == |g| && StackIs(full, s) && 0 < m <= |full|
    requires if m == |full| then forall x :: s.On(x) ==> s.indices[x] < low else low == s.indices[full[m]]
    requires Popped(g, s, t, low, s.currentComponent)
    ensures var w := full[m - 1]; 0 <= w < |g| && Popped(g, s,
              t.(onStack := t.onStack[w := false], component := t.component[w := s.currentComponent]),
              s.indices[w], s.currentComponent)
  {
    TopBetween(full, s, m, low);
    assert s.On(full[m - 1]);
    forall x | 0 <= x < |g| && s.onStack[x]
      ensures s.indices[full[m - 1]] <= s.indices[x] < low <==> x == full[m - 1]
    {
      assert s.On(x);
    }
  }

  lemma StackPrefix(full: seq<int>, s: State, t: State, base: seq<int>, v: int)
    requires StackIs(full, s) && base + [v] <= full && t.indices == s.indices && |t.onStack| == |s.onStack| && s.On(v)
    requires forall x :: 0 <= x < |s.onStack| ==> t.onStack[x] == (s.onStack[x] && s.indices[x] < s.indices[v])
    ensures StackIs(base, t)
  {
    assert full[|base|] == v;
    forall k | 0 <= k < |base|
      ensures t.On(base[k])
    {
      assert full[k] == base[k] && s.On(full[k]) && s.indices[full[k]] < s.indices[full[|base|]];
    }
    forall a, b | 0 <= a < b < |base|
      ensures t.indices[base[a]] < t.indices[base[b]]
    {
      assert full[a] == base[a] && full[b] == base[b];
    }
    forall x | t.On(x)
      ensures x in base
    {
      assert s.On(x);
      var a :| 0 <= a < |full| && full[a] == x;
      assert a < |base| && base[a] == x;
    }
  }

  lemma ExtendsTrans(g: seq<seq<int>>, s: State, t: State, u: State)
    requires Shape(g, s) && Shape(g, t) && Shape(g, u) && Extends(g, s, t) && Extends(g, t, u)
    ensures Extends(g, s, u)
  {}

  /** Gray nodes reach the successors of the top gray node. */
  lemma GrayReach(g: seq<seq<int>>, s: State, gray: set<int>, v: int, w: int)
    requires Inv(g, s, gray) && v in gray && w in g[v]
    requires forall x :: x in gray ==> 0 <= x < |g| && s.indices[x] <= s.indices[v]
    ensures forall x :: x in gray ==> Reaches(Adj(g), x, w)
  {
    ReachesStep(Adj(g), v, w);
    forall x | x in gray
      ensures Reaches(Adj(g), x, w)
    {
      assert s.On(x) && s.On(v) && s.From(s.indices[x], v) && Reaches(Adj(g), x, v);
      ReachesTrans(Adj(g), x, v, w);
    }
  }

  lemma LowBoundsWith(g: seq<seq<int>>, s: State, v: int, low: int)
    requires Shape(g, s) && s.On(v) && LowBounds(g, s, s.indices[v] + 1, s.indices[v], low)
    requires forall x :: s.On(x) && s.indices[x] == s.indices[v] ==> x == v
    requires forall w :: w in g[v] && s.On(w) && s.indices[w] < s.indices[v] ==> low <= s.indices[w]
    ensures LowBounds(g, s, s.indices[v], s.indices[v], low)
  {}

  // ---------- the order of the numbers ----------

  /** From s to t the call on v numbers only nodes that v reaches, and gives them new numbers. */
  ghost predicate Progress(g: seq<seq<int>>, v: int, s: State, t: State)
  {
    && Shape(g, s) && Shape(g, t) && s.currentComponent <= t.currentComponent
    && (forall x :: 0 <= x < |g| && !s.defined[x] && t.defined[x] ==> Reaches(Adj(g), v, x))
    && (forall x :: s.Done(x) ==> t.Done(x) && t.component[x] == s.component[x])
    && (forall x :: t.Done(x) && !s.Done(x) ==> s.currentComponent <= t.component[x])
  }

  lemma PushProgress(g: seq<seq<int>>, s: State, v: int)
    requires Shape(g, s) && 0 <= v < |g| && !s.defined[v]
    ensures Progress(g, v, s, Push(s, v))
  {
    forall x
      ensures Push(s, v).Done(x) <==> s.Done(x)
    {}
  }

  lemma ChildProgress(g: seq<seq<int>>, v: int, w: int, s: State, t: State, u: State)
    requires Progress(g, v, s, t) && Progress(g, w, t, u) && 0 <= v < |g| && w in g[v]
    ensures Progress(g, v, s, u)
  {
    forall x | 0 <= x < |g| && !s.defined[x] && u.defined[x]
      ensures Reaches(Adj(g), v, x)
    {
      if !t.defined[x] {
        ReachesStep(Adj(g), v, w);
        ReachesTrans(Adj(g), v, w, x);
      }
    }
  }

  lemma PopProgress(g: seq<seq<int>>, v: int, s0: State, s: State, t: State, i: int)
    requires Progress(g, v, s0, s) && Popped(g, s, t, i, s.currentComponent) && Shape(g, t)
    requires t.currentComponent == s.currentComponent + 1
    ensures Progress(g, v, s0, t)
  {
    forall x
      ensures t.Done(x) <==> s.Done(x) || s.From(i, x)
      ensures s.Done(x) ==> t.component[x] == s.component[x]
      ensures t.Done(x) && !s.Done(x) ==> t.component[x] == s.currentComponent
    {}
  }

  /** One of the first k nodes reaches x. */
  ghost predicate ReachedBelow(g: seq<seq<int>>, k: int, x: int)
  {
    exists u :: 0 <= u < k && Reaches(Adj(g), u, x)
  }

  /** What the first k nodes reach is numbered before everything that they do not reach. */
  ghost predicate InListOrder(g: seq<seq<int>>, component: seq<int>)
    requires |component| == |g|
  {
    forall k, x, y {:trigger ReachedBelow(g, k, x), ReachedBelow(g, k, y)} ::
      0 <= x < |g| && 0 <= y < |g| && ReachedBelow(g, k, x) && !ReachedBelow(g, k, y) ==> component[x] < component[y]
  }

  /** The calls on the first n nodes have defined what these reach, and numbered it in their order. */
  ghost predicate InOrder(g: seq<seq<int>>, s: State, n: int)
  {
    && Inv(g, s, {}) && (forall x :: 0 <= x < |g| ==> (s.defined[x] <==> ReachedBelow(g, n, x)))
    && (forall k, x, y {:trigger ReachedBelow(g, k, x), ReachedBelow(g, k, y)} ::
          k <= n && s.Done(x) && s.Done(y) && ReachedBelow(g, k, x) && !ReachedBelow(g, k, y) ==>
          s.component[x] < s.component[y])
  }

  /** Between the calls from outside nothing is on the stack. */
  lemma NothingOn(g: seq<seq<int>>, s: State, x: int)
    requires Inv(g, s, {}) && 0 <= x < |g|
    ensures s.Done(x) <==> s.defined[x]
  {
    assert !HasAnchor(g, s, {}, x);
  }

  lemma DefinedIsReached(g: seq<seq<int>>, s: State, t: State, v: int, x: int)
    requires InOrder(g, s, v) && Inv(g, t, {}) && Progress(g, v, s, t) && 0 <= v < |g| && t.defined[v] && 0 <= x < |g|
    ensures t.defined[x] <==> ReachedBelow(g, v + 1, x)
  {
    NothingOn(g, s, x);
    NothingOn(g, t, x);
    NothingOn(g, t, v);
    if t.defined[x] && s.defined[x] {
      var u :| 0 <= u < v && Reaches(Adj(g), u, x);
    }
    if ReachedBelow(g, v + 1, x) {
      var u :| 0 <= u < v + 1 && Reaches(Adj(g), u, x);
      if u < v {
        assert ReachedBelow(g, v, x);
      } else if !t.defined[x] {
        DoneNeverReaches(g, t, v, x);
      }
    }
  }

  lemma ReachedGrows(g: seq<seq<int>>, k: int, n: int, x: int)
    requires k <= n && ReachedBelow(g, k, x)
    ensures ReachedBelow(g, n, x)
  {
    var u :| 0 <= u < k && Reaches(Adj(g), u, x);
  }

  lemma OrderNext(g: seq<seq<int>>, s: State, t: State, v: int)
    requires InOrder(g, s, v) && Inv(g, t, {}) && Progress(g, v, s, t) && 0 <= v < |g| && t.defined[v]
    ensures InOrder(g, t, v + 1)
  {
    forall x | 0 <= x < |g|
      ensures t.defined[x] <==> ReachedBelow(g, v + 1, x)
    {
      DefinedIsReached(g, s, t, v, x);
    }
    forall k, x, y | k <= v + 1 && t.Done(x) && t.Done(y) && ReachedBelow(g, k, x) && !ReachedBelow(g, k, y)
      ensures t.component[x] < t.component[y]
    {
      assert k <= v;
      ReachedGrows(g, k, v, x);
      NothingOn(g, s, x);
      NothingOn(g, s, y);
    }
  }

  lemma OrderStarts(g: seq<seq<int>>, s: State)
    requires Inv(g, s, {}) && forall x :: 0 <= x < |g| ==> !s.defined[x]
    ensures InOrder(g, s, 0)
  {}

  lemma OrderEnds(g: seq<seq<int>>, s: State)
    requires InOrder(g, s, |g|)
    ensures forall x :: 0 <= x < |g| ==> s.defined[x]
    ensures InListOrder(g, s.component)
  {
    forall x | 0 <= x < |g|
      ensures s.defined[x] && s.Done(x)
    {
      assert Reaches(Adj(g), x, x) && ReachedBelow(g, |g|, x);
      NothingOn(g, s, x);
    }
    forall k, x, y | 0 <= x < |g| && 0 <= y < |g| && ReachedBelow(g, k, x) && !ReachedBelow(g, k, y)
      ensures s.component[x] < s.component[y]
    {
      if k > |g| { ReachedGrows(g, |g|, k, y); }
    }
  }

  /** The call on v has followed its first i arcs: all that was explored since its start is consistent and
      accounted for in low, the current lowlink[v]. */
  ghost predicate Exploring(g: seq<seq<int>>, v: int, i: int, gray: set<int>, s0: State, base: seq<int>,
                            s: State, stack: seq<int>, low: int)
  {
    && Inv(g, s, gray + {v}) && StackIs(stack, s) && Shape(g, s0) && Extends(g, s0, s)
    && base + [v] <= stack && s.On(v) && !s0.defined[v] && s.indices[v] == s0.index && low <= s0.index
    && (low == s0.index || LowReached(g, s, v, low))
    && LowBounds(g, s, s0.index + 1, s0.index, low)
    && (forall x :: x in gray ==> s0.On(x)) && v !in gray
    && 0 <= i <= |g[v]| && (forall k :: 0 <= k < i ==> Followed(g, s, v, g[v][k], low))
    && Progress(g, v, s0, s)
  }

  /** The arc from v to w needs no more attention. */
  ghost predicate Followed(g: seq<seq<int>>, s: State, v: int, w: int, low: int)
  {
    Shape(g, s) && 0 <= v < |g| && 0 <= w < |g| && s.defined[w] &&
    (s.onStack[w] && s.indices[w] < s.indices[v] ==> low <= s.indices[w])
  }

  /** What a call on v does to the state s0: v is popped, or it is stacked and reaches the older node
      whose index is low. */
  ghost predicate Explored(g: seq<seq<int>>, s0: State, base: seq<int>, s: State, stack: seq<int>, v: int, low: int)
  {
    && Shape(g, s0) && Shape(g, s) && Extends(g, s0, s) && base <= stack
    && 0 <= v < |g| && s.defined[v] && s.indices[v] == s0.index
    && (s.onStack[v] ==> low < s0.index && LowReached(g, s, v, low))
    && (!s.onStack[v] ==> stack == base && low == s0.index)
    && LowBounds(g, s, s0.index, s0.index, low)
    && Progress(g, v, s0, s)
  }

  ghost function UndefinedIn(s: State): set<int>
  {
    set x | 0 <= x < |s.defined| && !s.defined[x]
  }

  lemma StartExploring(g: seq<seq<int>>, s0: State, base: seq<int>, gray: set<int>, v: int)
    requires Inv(g, s0, gray) && StackIs(base, s0) && 0 <= v < |g| && !s0.defined[v]
    requires forall x :: x in gray ==> Reaches(Adj(g), x, v)
    ensures Exploring(g, v, 0, gray, s0, base, Push(s0, v), base + [v], s0.index)
  {
    PushOk(g, s0, gray, v);
    PushProgress(g, s0, v);
    PushStack(g, s0, base, v);
  }

  lemma UndefinedShrinks(g: seq<seq<int>>, s: State, t: State, v: int)
    requires Shape(g, s) && Shape(g, t) && Extends(g, s, t) && 0 <= v < |g| && !s.defined[v] && t.defined[v]
    ensures UndefinedIn(t) < UndefinedIn(s)
  {
    assert v in UndefinedIn(s) && v !in UndefinedIn(t);
  }

  lemma ChildReturned(g: seq<seq<int>>, v: int, i: int, gray: set<int>, s0: State, base: seq<int>,
                      s: State, full: seq<int>, low: int, t: State, stack: seq<int>, lw: int)
    requires 0 <= v < |g| && 0 <= i && Exploring(g, v, i, gray, s0, base, s, full, low) && i < |g[v]| &&
             |s.defined| == |g|
    requires 0 <= g[v][i] < |g| && !s.defined[g[v][i]]
    requires Explored(g, s, full, t, stack, g[v][i], lw) && Inv(g, t, gray + {v}) && StackIs(stack, t)
    ensures Exploring(g, v, i + 1, gray, s0, base, t, stack, if lw < low then lw else low)
  {
    var w := g[v][i];
    var m := if lw < low then lw else low;
    assert w in g[v];
    ExtendsTrans(g, s0, s, t);
    ChildProgress(g, v, w, s0, s, t);
    ChildReached(g, s, t, v, w, low, lw);
    ChildBounds(g, s, t, s0.index, w, low, lw);
    AllStillFollowed(g, s, t, v, i, low, m);
  }

  lemma AllStillFollowed(g: seq<seq<int>>, s: State, t: State, v: int, i: int, low: int, m: int)
    requires Shape(g, s) && Shape(g, t) && Extends(g, s, t) && s.On(v) && m <= low && 0 <= i < |g[v]|
    requires forall k :: 0 <= k < i ==> Followed(g, s, v, g[v][k], low)
    requires Followed(g, t, v, g[v][i], m)
    ensures forall k :: 0 <= k < i + 1 ==> Followed(g, t, v, g[v][k], m)
  {
    forall k | 0 <= k < i + 1
      ensures Followed(g, t, v, g[v][k], m)
    {
      if k < i { StillFollowed(g, s, t, v, g[v][k], low, m); }
    }
  }

  lemma StillFollowed(g: seq<seq<int>>, s: State, t: State, v: int, w: int, low: int, m: int)
    requires Shape(g, s) && Shape(g, t) && Extends(g, s, t) && s.On(v) && Followed(g, s, v, w, low) && m <= low
    ensures Followed(g, t, v, w, m)
  {}

  lemma ChildReached(g: seq<seq<int>>, s: State, t: State, v: int, w: int, low: int, lw: int)
    requires Shape(g, s) && Shape(g, t) && Extends(g, s, t) && s.On(v) && w in g[v] && t.defined[w] &&
             low <= s.indices[v]
    requires low == s.indices[v] || LowReached(g, s, v, low)
    requires t.On(w) ==> LowReached(g, t, w, lw)
    requires !t.On(w) ==> lw == s.index
    ensures var m := if lw < low then lw else low; m == t.indices[v] || LowReached(g, t, v, m)
  {
    if lw < low {
      var u :| t.On(u) && t.indices[u] == lw && Reaches(Adj(g), w, u);
      ReachesStep(Adj(g), v, w);
      ReachesTrans(Adj(g), v, w, u);
    } else if low != s.indices[v] {
      var u :| s.On(u) && s.indices[u] == low && Reaches(Adj(g), v, u);
      assert t.On(u);
    }
  }

  lemma ChildBounds(g: seq<seq<int>>, s: State, t: State, start: int, w: int, low: int, lw: int)
    requires Shape(g, s) && Shape(g, t) && Extends(g, s, t) && start < s.index
    requires LowBounds(g, s, start + 1, start, low) && LowBounds(g, t, s.index, s.index, lw)
    ensures LowBounds(g, t, start + 1, start, if lw < low then lw else low)
  {
    forall x, y | t.From(start + 1, x) && y in g[x] && t.On(y) && t.indices[y] < start
      ensures low <= t.indices[y] || lw <= t.indices[y]
    {
      assert s.On(y);
      assert if s.defined[x] then s.From(start + 1, x) else t.From(s.index, x);
    }
  }

  lemma SeenSuccessor(g: seq<seq<int>>, v: int, i: int, gray: set<int>, s0: State, base: seq<int>,
                         s: State, stack: seq<int>, low: int)
    requires 0 <= v < |g| && 0 <= i && Exploring(g, v, i, gray, s0, base, s, stack, low) && i < |g[v]|
    requires |s.defined| == |s.indices| == |g| && 0 <= g[v][i] < |g| && s.defined[g[v][i]]
    ensures var w := g[v][i];
            Exploring(g, v, i + 1, gray, s0, base, s, stack,
                      if s.On(w) && s.indices[w] < low then s.indices[w] else low)
  {
    assert g[v][i] in g[v];
    ReachesStep(Adj(g), v, g[v][i]);
  }

  /** When all arcs of v have been followed, either its component is ready to be popped or v is black. */
  lemma ReadyOrBlack(g: seq<seq<int>>, v: int, gray: set<int>, s0: State, base: seq<int>,
                     s: State, stack: seq<int>, low: int)
    requires 0 <= v < |g| && Exploring(g, v, |g[v]|, gray, s0, base, s, stack, low)
    ensures low == s.indices[v] ==> ReadyToPop(g, s, gray, v)
    ensures low != s.indices[v] ==> Explored(g, s0, base, s, stack, v, low) && Inv(g, s, gray)
  {
    assert forall w :: w in g[v] ==> Followed(g, s, v, w, low);
    assert LowBounds(g, s, s0.index, s0.index, low) by {
      forall x | s.On(x) && s.indices[x] == s.indices[v]
        ensures x == v
      {
        StackInjective(stack, s, x, v);
      }
      LowBoundsWith(g, s, v, low);
    }
    if low != s.indices[v] {
      Blacken(g, s, gray, v, low);
    }
  }

  lemma PopExplored(g: seq<seq<int>>, s0: State, base: seq<int>, s: State, t: State, gray: set<int>, v: int)
    requires ReadyToPop(g, s, gray, v) && Popped(g, s, t, s.indices[v], s.currentComponent) &&
             t.currentComponent == s.currentComponent + 1
    requires Shape(g, s0) && Extends(g, s0, s) && s.indices[v] == s0.index && Progress(g, v, s0, s)
    ensures Inv(g, t, gray) && Explored(g, s0, base, t, base, v, s0.index)
  {
    PopOk(g, s, t, gray, v);
    PopProgress(g, v, s0, s, t, s.indices[v]);
  }

  lemma StackInjective(stack: seq<int>, s: State, x: int, y: int)
    requires StackIs(stack, s) && s.On(x) && s.On(y) && s.indices[x] == s.indices[y]
    ensures x == y
  {
    var a :| 0 <= a < |stack| && stack[a] == x;
    var b :| 0 <= b < |stack| && stack[b] == y;
  }

  lemma AllDone(g: seq<seq<int>>, s: State)
    requires Inv(g, s, {}) && forall v :: 0 <= v < |g| ==> s.defined[v]
    ensures IsSccNumbering(g, s.component)
  {
    forall v | 0 <= v < |g|
      ensures s.Done(v)
    {
      assert !HasAnchor(g, s, {}, v);
    }
    forall v, c | 0 <= v < |g| && 0 <= c < s.component[v]
      ensures c in s.component
    {
      assert IsUsed(s, c);
    }
  }

  class SccSearch {
    const outNeighbors: seq<seq<int>>
    var index: int
    var stack: seq<int>
    var onStack: seq<bool>
    var indices: seq<int>
    var lowlink: seq<int>
    var defined: seq<bool>
    var component: seq<int>
    var currentComponent: int

    ghost function St(): State
      reads this
    {
      State(index, onStack, indices, defined, component, currentComponent)
    }

    ghost predicate Valid(gray: set<int>)
      reads this
    {
      Inv(outNeighbors, St(), gray) && StackIs(stack, St()) && |lowlink| == |outNeighbors|
    }

    constructor (g: seq<seq<int>>)
      requires WellFormed(g)
      ensures outNeighbors == g && Valid({})
      ensures forall v :: 0 <= v < |g| ==> !defined[v]
    {
      outNeighbors := g;
      index, stack, currentComponent := 0, [], 0;
      onStack := seq(|g|, _ => false);
      indices := seq(|g|, _ => 0);
      lowlink := seq(|g|, _ => 0);
      defined := seq(|g|, _ => false);
      component := seq(|g|, _ => 0);
    }

    ghost function Undefined(): set<int>
      reads this
    {
      UndefinedIn(St())
    }

    /** Explores everything newly reachable from v; on return v is either popped with its whole component
        or still stacked above an older node that it reaches and whose index is lowlink[v]. */
    method StrongConnect(v: int, ghost gray: set<int>)
      requires Valid(gray) && 0 <= v < |outNeighbors| && !defined[v]
      requires forall x :: x in gray ==> Reaches(Adj(outNeighbors), x, v)
      modifies this
      ensures Valid(gray)
      ensures Explored(outNeighbors, old(St()), old(stack), St(), stack, v, lowlink[v])
      ensures forall x :: 0 <= x < |outNeighbors| && old(defined[x]) ==> lowlink[x] == old(lowlink[x])
      decreases Undefined(), 1
    {
      ghost var s0 := St();
      ghost var base := stack;
      ghost var g := outNeighbors;
      StartExploring(g, s0, base, gray, v);
      indices := indices[v := index];
      lowlink := lowlink[v := index];
      defined := defined[v := true];
      index := index + 1;
      stack := stack + [v];
      onStack := onStack[v := true];
      assert St() == Push(s0, v);

      for i := 0 to |outNeighbors[v]|
        invariant |lowlink| == |g| && Exploring(g, v, i, gray, s0, base, St(), stack, lowlink[v])
        invariant forall x :: 0 <= x < |g| && s0.defined[x] ==> lowlink[x] == old(lowlink[x])
      {
        UndefinedShrinks(g, s0, St(), v);
        Follow(v, i, gray, s0, base);
      }

      ghost var s2 := St();
      ReadyOrBlack(g, v, gray, s0, base, s2, stack, lowlink[v]);
      if lowlink[v] == indices[v] {
        PopComponent(v, base);
        PopExplored(g, s0, base, s2, St(), gray, v);
      }
    }

    /** One iteration of the loop over the successors of v. */
    method Follow(v: int, i: int, ghost gray: set<int>, ghost s0: State, ghost base: seq<int>)
      requires |lowlink| == |outNeighbors| && 0 <= v < |outNeighbors| && 0 <= i < |outNeighbors[v]|
      requires Exploring(outNeighbors, v, i, gray, s0, base, St(), stack, lowlink[v])
      modifies this
      ensures |lowlink| == |outNeighbors|
      ensures Exploring(outNeighbors, v, i + 1, gray, s0, base, St(), stack, lowlink[v])
      ensures forall x :: 0 <= x < |outNeighbors| && s0.defined[x] ==> lowlink[x] == old(lowlink[x])
      decreases Undefined(), 3
    {
      var w := outNeighbors[v][i];
      assert w in outNeighbors[v];
      if !defined[w] {
        FollowNew(v, i, w, gray, s0, base);
        if lowlink[w] < lowlink[v] {
          lowlink := lowlink[v := lowlink[w]];
        }
      } else {
        FollowSeen(v, i, w, gray, s0, base);
      }
    }

    method FollowNew(v: int, i: int, w: int, ghost gray: set<int>, ghost s0: State, ghost base: seq<int>)
      requires |lowlink| == |outNeighbors| && 0 <= v < |outNeighbors| && 0 <= i < |outNeighbors[v]|
      requires Exploring(outNeighbors, v, i, gray, s0, base, St(), stack, lowlink[v])
      requires w == outNeighbors[v][i] && 0 <= w < |defined| == |outNeighbors| && !defined[w]
      modifies this
      ensures |lowlink| == |outNeighbors|
      ensures Exploring(outNeighbors, v, i + 1, gray, s0, base, St(), stack,
                        if lowlink[w] < lowlink[v] then lowlink[w] else lowlink[v])
      ensures forall x :: 0 <= x < |outNeighbors| && s0.defined[x] ==> lowlink[x] == old(lowlink[x])
      decreases Undefined(), 2
    {
      ghost var g := outNeighbors;
      ghost var s, full, low := St(), stack, lowlink[v];
      assert w in g[v];
      GrayReach(g, s, gray + {v}, v, w);
      StrongConnect(w, gray + {v});
      ChildReturned(g, v, i, gray, s0, base, s, full, low, St(), stack, lowlink[w]);
    }

    method FollowSeen(v: int, i: int, w: int, ghost gray: set<int>, ghost s0: State, ghost base: seq<int>)
      requires |lowlink| == |outNeighbors| && 0 <= v < |outNeighbors| && 0 <= i < |outNeighbors[v]|
      requires Exploring(outNeighbors, v, i, gray, s0, base, St(), stack, lowlink[v])
      requires w == outNeighbors[v][i] && 0 <= w < |defined| == |outNeighbors| && defined[w]
      modifies `lowlink
      ensures |lowlink| == |outNeighbors|
      ensures Exploring(outNeighbors, v, i + 1, gray, s0, base, St(), stack, lowlink[v])
      ensures forall x :: 0 <= x < |outNeighbors| && s0.defined[x] ==> lowlink[x] == old(lowlink[x])
    {
      SeenSuccessor(outNeighbors, v, i, gray, s0, base, St(), stack, lowlink[v]);
      if onStack[w] {
        if indices[w] < lowlink[v] {
          lowlink := lowlink[v := indices[w]];
        }
      }
    }

    /** The innermost loop: pops down to and including v into a fresh component. */
    method PopComponent(v: int, ghost base: seq<int>)
      requires |onStack| == |indices| == |component| == |outNeighbors|
      requires StackIs(stack, St()) && base + [v] <= stack && St().On(v)
      requires forall x :: St().On(x) ==> indices[x] < index
      modifies `stack, `onStack, `component, `currentComponent
      ensures Popped(outNeighbors, old(St()), St(), indices[v], old(currentComponent))
      ensures currentComponent == old(currentComponent) + 1 && stack == base && StackIs(stack, St())
    {
      ghost var s, full, low := St(), stack, index;
      assert full[|base|] == v;
      while true
        invariant |base| < |stack| <= |full| && stack == full[..|stack|]
        invariant if |stack| == |full| then low == index else low == s.indices[full[|stack|]]
        invariant Popped(outNeighbors, s, St(), low, currentComponent) && currentComponent == s.currentComponent
        decreases |stack|
      {
        var w := stack[|stack| - 1];
        PopStep(outNeighbors, s, full, St(), |stack|, low);
        low := s.indices[w];
        stack := stack[..|stack| - 1];
        onStack := onStack[w := false];
        component := component[w := currentComponent];
        if w == v { break; }
        assert |stack| != |base|;
      }
      currentComponent := currentComponent + 1;
      StackPrefix(full, s, St(), base, v);
    }
  }

  /** Runs the closure from every node that is still undefined. */
  method StronglyConnected(g: seq<seq<int>>) returns (component: seq<int>)
    requires WellFormed(g)
    ensures IsSccNumbering(g, component) && InListOrder(g, component)
  {
    var search := new SccSearch(g);
    OrderStarts(g, search.St());
    for v := 0 to |g|
      invariant search.outNeighbors == g && search.Valid({}) && fresh(search)
      invariant InOrder(g, search.St(), v)
    {
      ghost var s := search.St();
      if !search.defined[v] {
        search.StrongConnect(v, {});
      }
      OrderNext(g, s, search.St(), v);
    }
    component := search.component;
    OrderEnds(g, search.St());
    AllDone(g, search.St());
  }
}
