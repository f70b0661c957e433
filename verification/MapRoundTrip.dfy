/** Unflatten undoes Flatten exactly when every key survives and no nested map is empty. */
module MapRoundTrip {
  import opened FlatKeys
  import opened Graphs
  import opened MapFlatten
  import opened MapUnflatten

  /** The dictionary holds the nested map t. */
  ghost predicate Represents(all: set<Dict>, dict: Dict, t: Tree)
    reads all
    decreases t
  {
    && dict in all && t.Map? && dict.entries.Keys == t.entries.Keys
    && forall k :: k in t.entries ==>
         match t.entries[k]
         case Leaf(v) => dict.entries[k] == Value(v)
         case Map(_) => dict.entries[k].Sub? && Represents(all, dict.entries[k].dict, t.entries[k])
  }

  /** The same, said of the paths in a view. */
  ghost predicate Matches(view: View, p: seq<string>, t: Tree)
    decreases t
  {
    && p in view && t.Map? && view[p].Keys == t.entries.Keys
    && forall k :: k in t.entries ==>
         match t.entries[k]
         case Leaf(v) => view[p][k] == Value(v)
         case Map(_) => view[p][k].Sub? && Matches(view, p + [k], t.entries[k])
  }

  lemma {:induction false} RepresentsMatches(at: Places, p: seq<string>, t: Tree)
    requires Shaped(at, Snapshot(at)) && p in at
    ensures Represents(at.Values, at[p], t) <==> Matches(Snapshot(at), p, t)
    decreases t
  {
    var view: View := Snapshot(at);
    if t.Map? && at[p].entries.Keys == t.entries.Keys {
      forall k: string | k in t.entries && t.entries[k].Map? && view[p][k].Sub?
        ensures Represents(at.Values, at[p].entries[k].dict, t.entries[k]) <==> Matches(view, p + [k], t.entries[k])
      {
        assert Leads(at, p, k, view[p][k]);
        RepresentsMatches(at, p + [k], t.entries[k]);
      }
    }
  }

  /** No nested map is empty; the outermost one may be. */
  ghost predicate NoneEmpty(t: Tree)
    decreases t
  {
    t.Map? ==> forall k :: k in t.entries ==> t.entries[k] != Map(map[]) && NoneEmpty(t.entries[k])
  }

  /** The values below p are the leaves of t. */
  ghost predicate LeavesBelow(view: View, p: seq<string>, t: Tree)
  {
    && (forall q {:trigger HasValue(view, p + q)} :: q != [] ==> (HasValue(view, p + q) <==> q in Paths(t)))
    && (forall q {:trigger HasValue(view, p + q)} :: q != [] && HasValue(view, p + q) ==>
       IsLeaf(t, q, ValueAt(view, p + q)))
  }

  ghost function ValueAt(view: View, p: seq<string>): int
    requires HasValue(view, p)
  {
    view[p[..|p| - 1]][p[|p| - 1]].value
  }

  lemma ValueAtKey(view: View, p: seq<string>, k: string)
    ensures HasValue(view, p + [k]) <==> p in view && k in view[p] && view[p][k].Value?
    ensures HasValue(view, p + [k]) ==> view[p][k] == Value(ValueAt(view, p + [k]))
  {
    assert (p + [k])[..|p|] == p;
  }

  lemma LeafPaths(t: Tree, k: string, q: seq<string>)
    requires t.Map?
    ensures [k] + q in Paths(t) <==> k in t.entries && q in Paths(t.entries[k])
    ensures forall v :: IsLeaf(t, [k] + q, v) <==> k in t.entries && IsLeaf(t.entries[k], q, v)
  {
    assert ([k] + q)[1..] == q;
    if [k] + q in Paths(t) {
      var j, r :| j in t.entries && r in Paths(t.entries[j]) && [k] + q == [j] + r;
      assert ([j] + r)[0] == j && ([j] + r)[1..] == r;
    }
  }

  // ---------- a match has the leaves ----------

  lemma {:induction false} MatchLeaves(at: Places, view: View, p: seq<string>, t: Tree)
    requires Shaped(at, view) && Matches(view, p, t)
    ensures LeavesBelow(view, p, t)
    decreases t
  {
    forall q {:trigger HasValue(view, p + q)} | q != []
      ensures HasValue(view, p + q) <==> q in Paths(t)
      ensures HasValue(view, p + q) ==> IsLeaf(t, q, ValueAt(view, p + q))
    {
      MatchLeaf(at, view, p, t, q);
    }
  }

  ghost predicate LeafAgrees(view: View, p: seq<string>, t: Tree, q: seq<string>)
  {
    && (HasValue(view, p + q) <==> q in Paths(t))
    && (HasValue(view, p + q) ==> IsLeaf(t, q, ValueAt(view, p + q)))
  }

  /** A path of one key. */
  lemma MatchKey(view: View, p: seq<string>, t: Tree, k: string)
    requires Matches(view, p, t)
    ensures LeafAgrees(view, p, t, [k])
  {
    LeafPaths(t, k, []);
    assert [k] + [] == [k];
    ValueAtKey(view, p, k);
  }

  /** A path through a value, or through no entry, leads nowhere. */
  lemma MatchNothing(at: Places, view: View, p: seq<string>, t: Tree, k: string, r: seq<string>)
    requires Shaped(at, view) && Matches(view, p, t) && r != [] && (k in t.entries ==> t.entries[k].Leaf?)
    ensures !HasValue(view, p + [k] + r) && [k] + r !in Paths(t)
  {
    LeafPaths(t, k, r);
    ValueAtKey(view, p, k);
    if k in t.entries {
      NothingBelowValue(at, view, p, k, r);
    } else if HasValue(view, p + [k] + r) {
      EntryBelow(at, view, p, k, r);
    }
  }

  /** A path through a nested map. */
  lemma MatchBelow(view: View, p: seq<string>, t: Tree, k: string, r: seq<string>)
    requires t.Map? && k in t.entries && LeafAgrees(view, p + [k], t.entries[k], r)
    ensures LeafAgrees(view, p, t, [k] + r)
  {
    LeafPaths(t, k, r);
    assert p + ([k] + r) == p + [k] + r;
  }

  lemma {:induction false} MatchLeaf(at: Places, view: View, p: seq<string>, t: Tree, q: seq<string>)
    requires Shaped(at, view) && Matches(view, p, t) && q != []
    ensures LeafAgrees(view, p, t, q)
    decreases t
  {
    var k, r := q[0], q[1..];
    assert q == [k] + r;
    if r == [] {
      assert q == [k];
      MatchKey(view, p, t, k);
    } else if k in t.entries && t.entries[k].Map? {
      MatchLeaf(at, view, p + [k], t.entries[k], r);
      MatchBelow(view, p, t, k, r);
    } else {
      assert p + q == p + [k] + r;
      MatchNothing(at, view, p, t, k, r);
    }
  }

  /** What lies below an entry has the entry, */
  lemma EntryBelow(at: Places, view: View, p: seq<string>, k: string, r: seq<string>)
    requires Shaped(at, view) && HasValue(view, p + [k] + r)
    ensures p in view && k in view[p]
  {
    var all := p + [k] + r;
    var up := all[..|all| - 1];
    PrefixIsMap(at, view, up, |p|);
    assert up[..|p|] == p;
    if r == [] {
      assert all == p + [k];
    } else {
      PrefixIsMap(at, view, up, |p| + 1);
      assert up[..|p| + 1] == p + [k];
      UpHas(at, view, p, k);
    }
  }

  /** and nothing lies below a value. */
  lemma NothingBelowValue(at: Places, view: View, p: seq<string>, k: string, r: seq<string>)
    requires Shaped(at, view) && HasValue(view, p + [k]) && r != []
    ensures !HasValue(view, p + [k] + r)
  {
    if HasValue(view, p + [k] + r) {
      ValuesApart(at, view, p + [k], p + [k] + r);
    }
  }

  lemma {:induction false} MatchNoneEmpty(at: Places, view: View, p: seq<string>, t: Tree)
    requires Shaped(at, view) && FilledBut(view, []) && Matches(view, p, t)
    ensures NoneEmpty(t)
    decreases t
  {
    forall k | k in t.entries
      ensures t.entries[k] != Map(map[]) && NoneEmpty(t.entries[k])
    {
      if t.entries[k].Map? {
        MatchNoneEmpty(at, view, p + [k], t.entries[k]);
        assert p + [k] != [] && view[p + [k]] != map[];
        assert view[p + [k]].Keys == t.entries[k].entries.Keys;
      }
    }
  }

  // ---------- the same leaves make a match ----------

  lemma {:induction false} SomeLeaf(t: Tree)
    requires NoneEmpty(t) && t != Map(map[])
    ensures Paths(t) != {}
    decreases t
  {
    match t
    case Leaf(v) =>
    case Map(e) =>
      assert e != map[] ==> exists k :: k in e;
      var k :| k in e;
      SomeLeaf(e[k]);
      var p :| p in Paths(e[k]);
      LeafPaths(t, k, p);
  }

  ghost function Under(at: Places, p: seq<string>): set<seq<string>>
  {
    set q | q in at && p <= q
  }

  ghost predicate ValueUnder(view: View, p: seq<string>)
  {
    exists q :: q != [] && HasValue(view, p + q)
  }

  lemma UnderShrinks(at: Places, p: seq<string>, k: string)
    requires p in at
    ensures Under(at, p + [k]) < Under(at, p)
  {
    forall q | q in Under(at, p + [k])
      ensures q in Under(at, p)
    {
      assert (p + [k])[..|p|] == p && q[..|p|] == p;
    }
    assert p in Under(at, p) && p !in Under(at, p + [k]);
  }

  lemma ValueFurtherUp(view: View, p: seq<string>, k: string)
    requires ValueUnder(view, p + [k])
    ensures ValueUnder(view, p)
  {
    var q :| q != [] && HasValue(view, p + [k] + q);
    assert p + [k] + q == p + ([k] + q);
    assert HasValue(view, p + ([k] + q));
  }

  /** Below every map that is not empty there is a value. */
  lemma {:induction false} SomeValue(at: Places, view: View, p: seq<string>)
    requires Shaped(at, view) && FilledBut(view, []) && p in at && view[p] != map[]
    ensures ValueUnder(view, p)
    decreases Under(at, p)
  {
    assert view[p] != map[] ==> exists k :: k in view[p];
    var k :| k in view[p];
    if view[p][k].Value? {
      ValueAtKey(view, p, k);
      assert HasValue(view, p + [k]);
    } else {
      assert Leads(at, p, k, view[p][k]);
      UnderShrinks(at, p, k);
      SomeValue(at, view, p + [k]);
      ValueFurtherUp(view, p, k);
    }
  }

  /** An entry of the map at p is an entry of t, of the same kind. */
  lemma EntryMatches(at: Places, view: View, p: seq<string>, t: Tree, k: string)
    requires Shaped(at, view) && FilledBut(view, []) && p in at && t.Map? && LeavesBelow(view, p, t) && k in view[p]
    ensures k in t.entries
    ensures view[p][k].Value? ==> t.entries[k] == Leaf(view[p][k].value)
    ensures view[p][k].Sub? ==> t.entries[k].Map?
  {
    ValueAtKey(view, p, k);
    LeafPaths(t, k, []);
    assert [k] + [] == [k];
    if view[p][k].Sub? {
      assert Leads(at, p, k, view[p][k]);
      assert p + [k] in view && view[p + [k]] != map[];
      SomeValue(at, view, p + [k]);
      var q :| q != [] && HasValue(view, p + [k] + q);
      assert p + [k] + q == p + ([k] + q);
      LeafPaths(t, k, q);
      assert HasValue(view, p + ([k] + q));
      assert q in Paths(t.entries[k]);
    }
  }

  lemma Regroup(p: seq<string>, k: string, q: seq<string>)
    ensures p + ([k] + q) == p + [k] + q
  {}

  /** An entry of t is an entry of the map at p. */
  lemma TreeEntryMatches(at: Places, view: View, p: seq<string>, t: Tree, k: string)
    requires Shaped(at, view) && p in at && t.Map? && NoneEmpty(t) && LeavesBelow(view, p, t) && k in t.entries
    ensures k in view[p]
  {
    SomeLeaf(t.entries[k]);
    var q :| q in Paths(t.entries[k]);
    LeafPaths(t, k, q);
    LeafBelow(view, p, t, [k] + q);
    Regroup(p, k, q);
    EntryBelow(at, view, p, k, q);
  }

  lemma LeafBelow(view: View, p: seq<string>, t: Tree, q: seq<string>)
    requires LeavesBelow(view, p, t) && q != []
    ensures LeafAgrees(view, p, t, q)
  {}

  lemma LeavesOfEntry(at: Places, view: View, p: seq<string>, t: Tree, k: string)
    requires t.Map? && LeavesBelow(view, p, t) && k in t.entries
    ensures LeavesBelow(view, p + [k], t.entries[k])
  {
    forall q {:trigger HasValue(view, p + [k] + q)} | q != []
      ensures HasValue(view, p + [k] + q) <==> q in Paths(t.entries[k])
      ensures HasValue(view, p + [k] + q) ==> IsLeaf(t.entries[k], q, ValueAt(view, p + [k] + q))
    {
      assert p + [k] + q == p + ([k] + q);
      LeafPaths(t, k, q);
      assert HasValue(view, p + ([k] + q)) <==> [k] + q in Paths(t);
    }
  }

  lemma {:induction false} LeavesMatch(at: Places, view: View, p: seq<string>, t: Tree)
    requires Shaped(at, view) && FilledBut(view, []) && p in at && t.Map? && NoneEmpty(t) && LeavesBelow(view, p, t)
    ensures Matches(view, p, t)
    decreases t
  {
    forall k
      ensures k in view[p] <==> k in t.entries
    {
      if k in view[p] { EntryMatches(at, view, p, t, k); }
      if k in t.entries { TreeEntryMatches(at, view, p, t, k); }
    }
    forall k | k in t.entries && t.entries[k].Map?
      ensures view[p][k].Sub? && Matches(view, p + [k], t.entries[k])
    {
      EntryMatches(at, view, p, t, k);
      assert Leads(at, p, k, view[p][k]);
      LeavesOfEntry(at, view, p, t, k);
      LeavesMatch(at, view, p + [k], t.entries[k]);
    }
    forall k | k in t.entries && t.entries[k].Leaf?
      ensures view[p][k] == Value(t.entries[k].value)
    {
      EntryMatches(at, view, p, t, k);
    }
  }

  // ---------- the round trip ----------

  /** From the root, what a path holds is what the leaves say. */
  lemma FromRoot(view: View, t: Tree, p: seq<string>)
    requires t.Map?
    ensures HasValue(view, [] + p) <==> p in Leaves(view)
    ensures HasValue(view, [] + p) ==> ValueAt(view, [] + p) == Leaves(view)[p]
    ensures p in Leaves(view) || p in Paths(t) ==> p != []
  {
    assert [] + p == p;
    LeafIsValue(view, p);
    if p in Paths(t) { RootPath(t, p); }
  }

  lemma SameIfBelow(view: View, t: Tree)
    requires t.Map? && LeavesBelow(view, [], t)
    ensures SameLeaves(t, Leaves(view))
  {
    forall p
      ensures p in Leaves(view) <==> p in Paths(t)
      ensures p in Leaves(view) ==> IsLeaf(t, p, Leaves(view)[p])
    {
      FromRoot(view, t, p);
    }
  }

  lemma BelowIfSame(view: View, t: Tree)
    requires t.Map? && SameLeaves(t, Leaves(view))
    ensures LeavesBelow(view, [], t)
  {
    forall p {:trigger HasValue(view, [] + p)} | p != []
      ensures HasValue(view, [] + p) <==> p in Paths(t)
      ensures HasValue(view, [] + p) ==> IsLeaf(t, p, ValueAt(view, [] + p))
    {
      FromRoot(view, t, p);
    }
  }

  lemma SameLeavesBelow(view: View, t: Tree)
    requires t.Map?
    ensures LeavesBelow(view, [], t) <==> SameLeaves(t, Leaves(view))
  {
    if LeavesBelow(view, [], t) { SameIfBelow(view, t); }
    if SameLeaves(t, Leaves(view)) { BelowIfSame(view, t); }
  }

  /** A tree of dictionaries without empty ones below the root holds t exactly if it has the leaves of t, and t has
      no empty nested map. */
  lemma RepresentsIff(at: Places, root: Dict, t: Tree)
    requires Good(at, Snapshot(at), root) && FilledBut(Snapshot(at), []) && t.Map?
    ensures Represents(at.Values, root, t) <==> SameLeaves(t, Leaves(Snapshot(at))) && NoneEmpty(t)
  {
    var view := Snapshot(at);
    RepresentsMatches(at, [], t);
    SameLeavesBelow(view, t);
    if Matches(view, [], t) {
      MatchLeaves(at, view, [], t);
      MatchNoneEmpty(at, view, [], t);
    }
    if LeavesBelow(view, [], t) && NoneEmpty(t) { LeavesMatch(at, view, [], t); }
  }

  /** Flatten, then Unflatten with the same delimiter. */
  method RoundTrip(m: Tree, delimiter: string) returns (outcome: Outcome<Dict>, ghost at: Places)
    requires m.Map?
    ensures (outcome.Done? && Represents(at.Values, outcome.value, m)) <==> Restorable(m, delimiter) && NoneEmpty(m)
    ensures Restorable(m, delimiter) ==> outcome.Done? && SameLeaves(m, Leaves(Snapshot(at)))
  {
    var flat := Flatten(m, delimiter);
    ghost var order;
    outcome, at, order := Unflatten(flat, delimiter);
    if Restorable(m, delimiter) {
      RestorableApart(m, delimiter, flat);
      if delimiter == "" { RestorableHasParts(m, delimiter, flat); }
    }
    if outcome.Done? {
      SameLeavesIff(m, delimiter, flat, Leaves(Snapshot(at)));
      RepresentsIff(at, outcome.value, m);
    }
  }

  /** An empty nested map leaves no flat key, so it is lost. */
  lemma EmptyMapIsLost()
    ensures var m := Map(map["a" := Map(map[])]); Paths(m) == {} && IsFlat(m, ".", map[]) && !NoneEmpty(m)
  {
    var m := Map(map["a" := Map(map[])]);
    assert "a" in m.entries && m.entries["a"] == Map(map[]);
    forall p ensures p !in Paths(m) {}
    forall key ensures !KeyOf(m, "", ".", key) {
      forall p, v ensures !IsLeaf(m, p, v) { PathsAreLeaves(m, p); }
    }
  }
}
