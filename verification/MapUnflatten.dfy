/** Unflatten: every key is walked down from the root through freshly made maps, which are updated in place. */
module MapUnflatten {
  import opened Delimiters
  import opened FlatKeys
  import opened Randomness
  import opened Graphs

  /** What a map[string]interface{} holds under a key: another map, or any other value. */
  datatype Item = Value(value: int) | Sub(dict: Dict)

  class Dict {
    var entries: map<string, Item>

    constructor ()
      ensures entries == map[]
    {
      entries := map[];
    }
  }

  // ---------- the maps below a root, by their paths ----------

  type Places = map<seq<string>, Dict>
  type View = map<seq<string>, map<string, Item>>

  ghost function Snapshot(at: Places): View
    reads at.Values
  {
    map p | p in at :: at[p].entries
  }

  /** The map at a path other than the root hangs in the map one step up. */
  ghost predicate Hangs(at: Places, view: View, p: seq<string>)
    requires p in at
  {
    p != [] ==>
      var up, k := p[..|p| - 1], p[|p| - 1];
      up in view && k in view[up] && view[up][k] == Sub(at[p])
  }

  /** Every nested map is the one at its path. */
  ghost predicate Leads(at: Places, p: seq<string>, k: string, item: Item)
  {
    item.Sub? ==> p + [k] in at && at[p + [k]] == item.dict
  }

  /** The maps form a tree: each has one path, and the view gives their entries. */
  ghost predicate Shaped(at: Places, view: View)
  {
    && [] in at && view.Keys == at.Keys
    && (forall p, q {:trigger at[p], at[q]} :: p in at && q in at && at[p] == at[q] ==> p == q)
    && (forall p {:trigger Hangs(at, view, p)} :: p in at ==> Hangs(at, view, p))
    && (forall p, k {:trigger view[p][k]} :: p in at && k in view[p] ==> Leads(at, p, k, view[p][k]))
  }

  /** A value is stored under the last key of the path, in the map that the rest of the path leads to. */
  ghost predicate HasValue(view: View, p: seq<string>)
  {
    |p| > 0 && p[..|p| - 1] in view && p[|p| - 1] in view[p[..|p| - 1]] && view[p[..|p| - 1]][p[|p| - 1]].Value?
  }

  /** The paths of the values, with the values. */
  ghost function Leaves(view: View): map<seq<string>, int>
  {
    map p | p in (set q, k | q in view && k in view[q] && view[q][k].Value? :: q + [k]) ::
      view[p[..|p| - 1]][p[|p| - 1]].value
  }

  lemma LeafIsValue(view: View, p: seq<string>)
    ensures p in Leaves(view) <==> HasValue(view, p)
    ensures p in Leaves(view) ==> view[p[..|p| - 1]][p[|p| - 1]] == Value(Leaves(view)[p])
  {
    if HasValue(view, p) { assert p == p[..|p| - 1] + [p[|p| - 1]]; }
  }

  // ---------- making a map, and storing a value ----------

  lemma PrefixStep(p: seq<string>, k: string, q: seq<string>, j: string)
    ensures p + [k] <= q + [j] <==> p + [k] <= q || (p == q && k == j)
    ensures !(p + [k] <= p)
  {
    assert (p + [k])[..|p|] == p && (q + [j])[..|q|] == q && (p + [k])[|p|] == k && (q + [j])[|q|] == j;
    if p + [k] <= q + [j] {
      assert p + [k] == (q + [j])[..|p| + 1];
      if |p| < |q| {
        assert (q + [j])[..|p| + 1] == q[..|p| + 1];
      } else {
        assert p + [k] == q + [j];
      }
    }
    if p + [k] <= q { assert (q + [j])[..|p| + 1] == q[..|p| + 1]; }
  }

  /** Below a map that is in the tree there is its entry in the map one step up. */
  lemma UpHas(at: Places, view: View, p: seq<string>, k: string)
    requires Shaped(at, view) && p + [k] in at
    ensures p in view && k in view[p]
  {
    assert Hangs(at, view, p + [k]);
    assert (p + [k])[..|p|] == p;
  }

  ghost function Made(view: View, p: seq<string>, k: string, c: Dict): View
    requires p in view
  {
    view[p := view[p][k := Sub(c)]][p + [k] := map[]]
  }

  lemma MadeShaped(at: Places, view: View, p: seq<string>, k: string, c: Dict)
    requires Shaped(at, view) && p in at && k !in view[p] && forall q {:trigger at[q]} :: q in at ==> at[q] != c
    ensures p + [k] !in at && Shaped(at[p + [k] := c], Made(view, p, k, c))
  {
    var path, at', view' := p + [k], at[p + [k] := c], Made(view, p, k, c);
    if path in at { UpHas(at, view, p, k); }
    forall q {:trigger Hangs(at', view', q)} | q in at'
      ensures Hangs(at', view', q)
    {
      if q == path {
        assert q[..|q| - 1] == p;
      } else {
        assert Hangs(at, view, q);
      }
    }
    forall q, j {:trigger view'[q][j]} | q in at' && j in view'[q]
      ensures Leads(at', q, j, view'[q][j])
    {
      if q != path && !(q == p && j == k) {
        assert Leads(at, q, j, view[q][j]);
      }
    }
  }

  lemma MadeLeaf(at: Places, view: View, p: seq<string>, k: string, c: Dict, q: seq<string>)
    requires Shaped(at, view) && p in at && k !in view[p] && p + [k] !in at
    ensures q in Leaves(Made(view, p, k, c)) <==> q in Leaves(view)
    ensures q in Leaves(view) ==> Leaves(Made(view, p, k, c))[q] == Leaves(view)[q]
  {
    if q == [] {
      LeafIsValue(Made(view, p, k, c), q);
      LeafIsValue(view, q);
    } else {
      assert q == q[..|q| - 1] + [q[|q| - 1]];
      MadeEntry(view, p, k, c, q[..|q| - 1], q[|q| - 1]);
    }
  }

  lemma MadeLeaves(at: Places, view: View, p: seq<string>, k: string, c: Dict)
    requires Shaped(at, view) && p in at && k !in view[p] && p + [k] !in at
    ensures Leaves(Made(view, p, k, c)) == Leaves(view)
  {
    var after, before := Leaves(Made(view, p, k, c)), Leaves(view);
    forall q
      ensures (q in after <==> q in before) && (q in before ==> after[q] == before[q])
    {
      MadeLeaf(at, view, p, k, c, q);
    }
    assert after.Keys == before.Keys;
  }

  lemma MadeEntry(view: View, p: seq<string>, k: string, c: Dict, up: seq<string>, j: string)
    requires p in view && k !in view[p] && p + [k] !in view
    ensures up + [j] in Leaves(Made(view, p, k, c)) <==> up + [j] in Leaves(view)
    ensures up + [j] in Leaves(view) ==> Leaves(Made(view, p, k, c))[up + [j]] == Leaves(view)[up + [j]]
  {
    ValueUnder(Made(view, p, k, c), up, j);
    ValueUnder(view, up, j);
  }

  /** The maps that are left when the path holds a value. */
  ghost function Kept(at: Places, path: seq<string>): Places
  {
    map q | q in at && !(path <= q) :: at[q]
  }

  ghost function StoredView(view: View, p: seq<string>, k: string, v: int): View
    requires p in view
  {
    map q | q in view && !(p + [k] <= q) :: if q == p then view[p][k := Value(v)] else view[q]
  }

  lemma StoredHangs(at: Places, view: View, p: seq<string>, k: string, v: int, q: seq<string>)
    requires view.Keys == at.Keys && p in at && q in Kept(at, p + [k]) && Hangs(at, view, q)
    ensures Hangs(Kept(at, p + [k]), StoredView(view, p, k, v), q)
  {
    if q != [] {
      assert q == q[..|q| - 1] + [q[|q| - 1]];
      PrefixStep(p, k, q[..|q| - 1], q[|q| - 1]);
    }
  }

  lemma StoredLeads(at: Places, view: View, p: seq<string>, k: string, v: int, q: seq<string>, j: string)
    requires view.Keys == at.Keys && p in at && q in Kept(at, p + [k]) && j in StoredView(view, p, k, v)[q]
    requires j in view[q] ==> Leads(at, q, j, view[q][j])
    ensures Leads(Kept(at, p + [k]), q, j, StoredView(view, p, k, v)[q][j])
  {
    PrefixStep(p, k, q, j);
  }

  lemma StoredShaped(at: Places, view: View, p: seq<string>, k: string, v: int)
    requires Shaped(at, view) && p in at
    ensures p in Kept(at, p + [k]) && Shaped(Kept(at, p + [k]), StoredView(view, p, k, v))
  {
    var at', view' := Kept(at, p + [k]), StoredView(view, p, k, v);
    PrefixStep(p, k, p, k);
    forall q {:trigger Hangs(at', view', q)} | q in at'
      ensures Hangs(at', view', q)
    {
      StoredHangs(at, view, p, k, v, q);
    }
    forall q, j {:trigger view'[q][j]} | q in at' && j in view'[q]
      ensures Leads(at', q, j, view'[q][j])
    {
      StoredLeads(at, view, p, k, v, q, j);
    }
  }

  /** What storing a value does to the leaves: those at or below the path go, and the path gets the value. */
  function Stored(leaves: map<seq<string>, int>, path: seq<string>, v: int): map<seq<string>, int>
  {
    (map q | q in leaves && !(path <= q) :: leaves[q])[path := v]
  }

  lemma StoredLeaves(at: Places, view: View, p: seq<string>, k: string, v: int)
    requires Shaped(at, view) && p in at
    ensures Leaves(StoredView(view, p, k, v)) == Stored(Leaves(view), p + [k], v)
  {
    var path, view' := p + [k], StoredView(view, p, k, v);
    forall q
      ensures q in Leaves(view') <==> q in Stored(Leaves(view), path, v)
      ensures q in Leaves(view') ==> Leaves(view')[q] == Stored(Leaves(view), path, v)[q]
    {
      StoredLeaf(at, view, p, k, v, q);
    }
  }

  lemma ValueUnder(view: View, p: seq<string>, k: string)
    ensures HasValue(view, p + [k]) <==> p in view && k in view[p] && view[p][k].Value?
    ensures p + [k] in Leaves(view) <==> HasValue(view, p + [k])
    ensures p + [k] in Leaves(view) ==> view[p][k] == Value(Leaves(view)[p + [k]])
  {
    assert (p + [k])[..|p|] == p;
    LeafIsValue(view, p + [k]);
  }

  lemma StoredEntry(view: View, p: seq<string>, k: string, v: int, up: seq<string>, j: string)
    requires p in view
    ensures up + [j] in Leaves(StoredView(view, p, k, v)) <==>
            (up == p && j == k) || (up + [j] in Leaves(view) && !(p + [k] <= up + [j]))
    ensures up + [j] in Leaves(StoredView(view, p, k, v)) ==>
              Leaves(StoredView(view, p, k, v))[up + [j]] == if up == p && j == k then v else Leaves(view)[up + [j]]
  {
    ValueUnder(StoredView(view, p, k, v), up, j);
    ValueUnder(view, up, j);
    PrefixStep(p, k, up, j);
  }

  lemma StoredLeaf(at: Places, view: View, p: seq<string>, k: string, v: int, q: seq<string>)
    requires Shaped(at, view) && p in at
    ensures q in Leaves(StoredView(view, p, k, v)) <==> q in Stored(Leaves(view), p + [k], v)
    ensures q in Leaves(StoredView(view, p, k, v)) ==>
            Leaves(StoredView(view, p, k, v))[q] == Stored(Leaves(view), p + [k], v)[q]
  {
    if q == [] {
      LeafIsValue(StoredView(view, p, k, v), q);
      LeafIsValue(view, q);
    } else {
      var up, j := q[..|q| - 1], q[|q| - 1];
      assert q == up + [j];
      StoredEntry(view, p, k, v, up, j);
      assert (p + [k])[..|p|] == p && up == (up + [j])[..|up|];
      assert q == p + [k] <==> up == p && j == k;
    }
  }

  // ---------- the walk ----------

  /** Only the root and the map at p may be empty. */
  ghost predicate FilledBut(view: View, p: seq<string>)
  {
    forall q {:trigger view[q]} :: q in view && q != [] && q != p ==> view[q] != map[]
  }

  ghost predicate Good(at: Places, view: View, root: Dict)
  {
    Shaped(at, view) && at[[]] == root
  }

  lemma MadeGood(at: Places, view: View, root: Dict, p: seq<string>, k: string, c: Dict)
    requires Good(at, view, root) && p in at && k !in view[p] && FilledBut(view, p)
    requires forall q {:trigger at[q]} :: q in at ==> at[q] != c
    ensures Good(at[p + [k] := c], Made(view, p, k, c), root) && FilledBut(Made(view, p, k, c), p + [k])
    ensures p + [k] !in at && Leaves(Made(view, p, k, c)) == Leaves(view)
  {
    MadeShaped(at, view, p, k, c);
    MadeLeaves(at, view, p, k, c);
    assert k in Made(view, p, k, c)[p];
  }

  /** One step down; a missing map is made, and a value in the way is a panic. */
  method Descend(current: Dict, k: string, ghost root: Dict, ghost at: Places, ghost p: seq<string>)
    returns (next: Outcome<Dict>, ghost at': Places)
    requires Good(at, Snapshot(at), root) && p in at && at[p] == current && FilledBut(Snapshot(at), p)
    modifies current
    ensures next.Panic? <==> p + [k] in old(Leaves(Snapshot(at)))
    ensures next.Done? ==>
              && Good(at', Snapshot(at'), root) && p + [k] in at' && at'[p + [k]] == next.value
              && FilledBut(Snapshot(at'), p + [k])
              && Leaves(Snapshot(at')) == old(Leaves(Snapshot(at)))
              && (at' == at || (fresh(next.value) && at' == at[p + [k] := next.value]))
  {
    ghost var view := Snapshot(at);
    LeafIsValue(view, p + [k]);
    assert (p + [k])[..|p|] == p;
    at' := at;
    if k !in current.entries {
      var c := new Dict();
      MadeGood(at, view, root, p, k, c);
      current.entries := current.entries[k := Sub(c)];
      at' := at[p + [k] := c];
      assert Snapshot(at') == Made(view, p, k, c);
      next := Done(c);
    } else if current.entries[k].Sub? {
      assert Leads(at, p, k, view[p][k]);
      next := Done(current.entries[k].dict);
    } else {
      next := Panic;
    }
  }

  lemma StoredGood(at: Places, view: View, root: Dict, p: seq<string>, k: string, v: int)
    requires Good(at, view, root) && p in at && FilledBut(view, p)
    ensures p in Kept(at, p + [k]) && Good(Kept(at, p + [k]), StoredView(view, p, k, v), root)
    ensures FilledBut(StoredView(view, p, k, v), [])
    ensures Leaves(StoredView(view, p, k, v)) == Stored(Leaves(view), p + [k], v)
  {
    StoredShaped(at, view, p, k, v);
    StoredLeaves(at, view, p, k, v);
    var view' := StoredView(view, p, k, v);
    forall q {:trigger view'[q]} | q in view' && q != []
      ensures view'[q] != map[]
    {
      if q == p { assert k in view'[q]; } else { assert view'[q] == view[q]; }
    }
  }

  method StoreValue(current: Dict, k: string, v: int, ghost root: Dict, ghost at: Places, ghost p: seq<string>)
    returns (ghost at': Places)
    requires Good(at, Snapshot(at), root) && p in at && at[p] == current && FilledBut(Snapshot(at), p)
    modifies current
    ensures at' == Kept(at, p + [k]) && Good(at', Snapshot(at'), root) && FilledBut(Snapshot(at'), [])
    ensures Leaves(Snapshot(at')) == Stored(old(Leaves(Snapshot(at))), p + [k], v)
  {
    ghost var view := Snapshot(at);
    StoredGood(at, view, root, p, k, v);
    current.entries := current.entries[k := Value(v)];
    at' := Kept(at, p + [k]);
    ghost var view' := StoredView(view, p, k, v);
    assert Snapshot(at').Keys == view'.Keys;
    forall q | q in at'
      ensures Snapshot(at')[q] == view'[q]
    {}
    assert Snapshot(at') == view';
  }

  /** Some proper prefix of the parts already holds a value. */
  ghost predicate Blocked(leaves: map<seq<string>, int>, parts: seq<string>)
  {
    exists i :: 0 < i < |parts| && parts[..i] in leaves
  }

  lemma TakeStep(parts: seq<string>, i: nat)
    requires i < |parts|
    ensures parts[..i] + [parts[i]] == parts[..i + 1]
    ensures i == |parts| - 1 ==> parts[..i + 1] == parts
  {}

  /** What holds after i steps of the walk. */
  ghost predicate Walking(at: Places, view: View, root: Dict, parts: seq<string>, i: nat, current: Dict,
                          leaves: map<seq<string>, int>)
    requires i <= |parts|
  {
    && Good(at, view, root) && FilledBut(view, parts[..i]) && parts[..i] in at && at[parts[..i]] == current
    && Leaves(view) == leaves && forall j :: 0 < j <= i ==> parts[..j] !in leaves
  }

  /** One step of the walk. */
  method Step(root: Dict, parts: seq<string>, i: nat, current: Dict, ghost at: Places,
              ghost leaves: map<seq<string>, int>)
    returns (next: Outcome<Dict>, ghost at': Places)
    requires i < |parts| && Walking(at, Snapshot(at), root, parts, i, current, leaves)
    modifies current
    ensures next.Panic? <==> parts[..i + 1] in leaves
    ensures next.Done? ==> Walking(at', Snapshot(at'), root, parts, i + 1, next.value, leaves)
    ensures next.Done? ==> at' == at || (fresh(next.value) && at' == at[parts[..i + 1] := next.value])
  {
    TakeStep(parts, i);
    next, at' := Descend(current, parts[i], root, at, parts[..i]);
  }

  /** The walk to the last part. */
  method Walk(root: Dict, parts: seq<string>, ghost at: Places) returns (end: Outcome<Dict>, ghost at': Places)
    requires Good(at, Snapshot(at), root) && FilledBut(Snapshot(at), []) && |parts| > 0
    modifies at.Values
    ensures end.Panic? <==> Blocked(old(Leaves(Snapshot(at))), parts)
    ensures end.Done? ==> Walking(at', Snapshot(at'), root, parts, |parts| - 1, end.value, old(Leaves(Snapshot(at))))
    ensures end.Done? ==> forall p {:trigger at'[p]} :: p in at' ==> at'[p] in at.Values || fresh(at'[p])
  {
    ghost var leaves := Leaves(Snapshot(at));
    var current := root;
    at' := at;
    for i := 0 to |parts| - 1
      invariant Walking(at', Snapshot(at'), root, parts, i, current, leaves)
      invariant forall p {:trigger at'[p]} :: p in at' ==> at'[p] in at.Values || fresh(at'[p])
    {
      var next;
      next, at' := Step(root, parts, i, current, at', leaves);
      if next.Panic? { return Panic, at'; }
      current := next.value;
    }
    end := Done(current);
  }

  /** One key: the walk to the last part, and the value stored there. */
  method Put(root: Dict, parts: seq<string>, value: int, ghost at: Places) returns (ok: bool, ghost at': Places)
    requires Good(at, Snapshot(at), root) && FilledBut(Snapshot(at), []) && |parts| > 0
    modifies at.Values
    ensures ok <==> !Blocked(old(Leaves(Snapshot(at))), parts)
    ensures ok ==> Good(at', Snapshot(at'), root) && FilledBut(Snapshot(at'), [])
    ensures ok ==> Leaves(Snapshot(at')) == Stored(old(Leaves(Snapshot(at))), parts, value)
    ensures ok ==> forall p {:trigger at'[p]} :: p in at' ==> at'[p] in at.Values || fresh(at'[p])
  {
    var end;
    end, at' := Walk(root, parts, at);
    if end.Panic? { return false, at'; }
    TakeStep(parts, |parts| - 1);
    at' := StoreValue(end.value, parts[|parts| - 1], value, root, at', parts[..|parts| - 1]);
    ok := true;
  }

  // ---------- all keys ----------

  /** After the keys that are not left: every leaf comes from a key, and if the keys are apart none is missing. */
  ghost predicate Progress(flat: map<string, int>, d: string, left: set<string>, leaves: map<seq<string>, int>)
  {
    && FromKeys(flat, d, leaves)
    && (Apart(flat, d) ==> forall k {:trigger k in left} :: k in flat && k !in left ==>
       Split(k, d) in leaves && leaves[Split(k, d)] == flat[k])
  }

  lemma ProgressNext(flat: map<string, int>, d: string, left: set<string>, leaves: map<seq<string>, int>, key: string)
    requires Progress(flat, d, left, leaves) && key in left && key in flat
    ensures Progress(flat, d, left - {key}, Stored(leaves, Split(key, d), flat[key]))
  {
    var after := Stored(leaves, Split(key, d), flat[key]);
    forall p {:trigger p in after} | p in after
      ensures ComesFrom(flat, d, p, after[p])
    {
      if p != Split(key, d) { assert ComesFrom(flat, d, p, leaves[p]); }
    }
    if Apart(flat, d) {
      forall k {:trigger k in left - {key}} | k in flat && k !in left - {key}
        ensures Split(k, d) in after && after[Split(k, d)] == flat[k]
      {
        assert k != key ==> k !in left && !(Split(key, d) <= Split(k, d));
      }
    }
  }

  lemma ProgressDone(flat: map<string, int>, d: string, left: set<string>, leaves: map<seq<string>, int>)
    requires Progress(flat, d, left, leaves) && left == {} && Apart(flat, d)
    ensures AllKeys(flat, d, leaves)
  {
    forall k {:trigger k in flat} | k in flat
      ensures Split(k, d) in leaves && leaves[Split(k, d)] == flat[k]
    {
      assert k !in left;
    }
  }

  lemma BlockedNotApart(flat: map<string, int>, d: string, leaves: map<seq<string>, int>, key: string)
    requires FromKeys(flat, d, leaves) && key in flat && Blocked(leaves, Split(key, d))
    ensures !Apart(flat, d)
  {
    var parts := Split(key, d);
    var i :| 0 < i < |parts| && parts[..i] in leaves;
    assert ComesFrom(flat, d, parts[..i], leaves[parts[..i]]);
    var k :| k in flat && Split(k, d) == parts[..i] && flat[k] == leaves[parts[..i]];
    assert Split(k, d) <= Split(key, d) && k != key;
  }

  lemma {:induction false} PrefixIsMap(at: Places, view: View, p: seq<string>, n: nat)
    requires Shaped(at, view) && p in at && n <= |p|
    ensures p[..n] in at
    decreases |p|
  {
    if n == |p| {
      assert p[..n] == p;
    } else {
      assert Hangs(at, view, p);
      PrefixIsMap(at, view, p[..|p| - 1], n);
      assert p[..|p| - 1][..n] == p[..n];
    }
  }

  lemma MapOrValue(at: Places, view: View, p: seq<string>)
    requires Shaped(at, view) && p in at
    ensures !HasValue(view, p)
  {
    assert Hangs(at, view, p);
  }

  /** No value is stored below another. */
  lemma ValuesApart(at: Places, view: View, p: seq<string>, q: seq<string>)
    requires Shaped(at, view) && HasValue(view, p) && HasValue(view, q) && p <= q
    ensures p == q
  {
    if |p| < |q| {
      var up := q[..|q| - 1];
      PrefixIsMap(at, view, up, |p|);
      assert up[..|p|] == q[..|p|] == p;
      MapOrValue(at, view, p);
    }
  }

  lemma AllKeysApart(at: Places, view: View, flat: map<string, int>, d: string)
    requires Shaped(at, view) && AllKeys(flat, d, Leaves(view))
    ensures Apart(flat, d)
  {
    forall j, k {:trigger Split(j, d), Split(k, d)} | j in flat && k in flat && Split(j, d) <= Split(k, d)
      ensures j == k
    {
      LeafIsValue(view, Split(j, d));
      LeafIsValue(view, Split(k, d));
      ValuesApart(at, view, Split(j, d), Split(k, d));
      SplitInjective(j, k, d);
    }
  }

  /** The empty key has no parts at all when the delimiter is empty, so its last part does not exist. */
  ghost predicate HasNoParts(flat: map<string, int>, d: string)
  {
    d == "" && "" in flat
  }

  lemma SomeParts(key: string, d: string)
    ensures |Split(key, d)| == 0 <==> d == "" && key == ""
  {}

  /** What Unflatten guarantees about the leaves, for every order of the keys. */
  ghost predicate Outcomes(flat: map<string, int>, d: string, leaves: map<seq<string>, int>)
  {
    FromKeys(flat, d, leaves) && (Apart(flat, d) <==> AllKeys(flat, d, leaves))
  }

  /** The leaves after these keys have been stored one after the other. */
  ghost function PutAll(flat: map<string, int>, d: string, order: seq<string>): map<seq<string>, int>
    requires forall k :: k in order ==> k in flat
  {
    if |order| == 0 then map[]
    else
      var last := order[|order| - 1];
      Stored(PutAll(flat, d, order[..|order| - 1]), Split(last, d), flat[last])
  }

  /** Storing the key after these keys fails. */
  ghost predicate Fails(flat: map<string, int>, d: string, before: seq<string>, key: string)
    requires forall k :: k in before ==> k in flat
  {
    |Split(key, d)| == 0 || Blocked(PutAll(flat, d, before), Split(key, d))
  }

  /** Different keys of the flat map, each of which is stored without failing. */
  ghost predicate GoesThrough(flat: map<string, int>, d: string, order: seq<string>)
    decreases |order|
  {
    |order| > 0 ==>
      var before, last := order[..|order| - 1], order[|order| - 1];
      && GoesThrough(flat, d, before) && last in flat && last !in before
      && (forall k :: k in before ==> k in flat) && !Fails(flat, d, before, last)
  }

  /** In the order chosen, every key is stored. */
  ghost predicate StoresAll(flat: map<string, int>, d: string, order: seq<string>, leaves: map<seq<string>, int>)
  {
    && (forall k :: k in order <==> k in flat) && GoesThrough(flat, d, order) && leaves == PutAll(flat, d, order)
  }

  /** In the order chosen, the last key fails. */
  ghost predicate LastFails(flat: map<string, int>, d: string, order: seq<string>)
  {
    |order| > 0 &&
      var before, last := order[..|order| - 1], order[|order| - 1];
      GoesThrough(flat, d, before) && last in flat && last !in before && (forall k :: k in before ==> k in flat) &&
        Fails(flat, d, before, last)
  }

  /** The keys stored so far, in their order. */
  ghost predicate Ordered(flat: map<string, int>, d: string, left: set<string>, order: seq<string>,
                          leaves: map<seq<string>, int>)
  {
    && (forall k :: k in order <==> k in flat && k !in left) && GoesThrough(flat, d, order) &&
       leaves == PutAll(flat, d, order)
  }

  lemma OrderedNext(flat: map<string, int>, d: string, left: set<string>, order: seq<string>,
                    leaves: map<seq<string>, int>, key: string)
    requires Ordered(flat, d, left, order, leaves) && key in left && key in flat
    ensures |Split(key, d)| == 0 || Blocked(leaves, Split(key, d)) ==> LastFails(flat, d, order + [key])
    ensures |Split(key, d)| > 0 && !Blocked(leaves, Split(key, d)) ==>
              Ordered(flat, d, left - {key}, order + [key], Stored(leaves, Split(key, d), flat[key]))
  {
    var more := order + [key];
    assert more[..|more| - 1] == order && more[|more| - 1] == key;
    assert key !in order;
  }

  lemma OrderedDone(flat: map<string, int>, d: string, left: set<string>, order: seq<string>,
                    leaves: map<seq<string>, int>)
    requires Ordered(flat, d, left, order, leaves) && left == {}
    ensures StoresAll(flat, d, order, leaves)
  {
    forall k ensures k in order <==> k in flat { assert k !in left; }
  }

  /** What holds between any two keys. */
  ghost predicate Filling(at: Places, view: View, root: Dict, flat: map<string, int>, d: string, left: set<string>,
                          order: seq<string>)
  {
    && Good(at, view, root) && FilledBut(view, []) && left <= flat.Keys
    && Progress(flat, d, left, Leaves(view)) && Ordered(flat, d, left, order, Leaves(view))
    && (HasNoParts(flat, d) ==> "" in left)
  }

  /** One key: it is stored, or Unflatten panics. */
  method StoreKey(root: Dict, flat: map<string, int>, delimiter: string, key: string, ghost left: set<string>,
                  ghost order: seq<string>, ghost at: Places)
    returns (ok: bool, ghost at': Places)
    requires Filling(at, Snapshot(at), root, flat, delimiter, left, order) && key in left
    modifies at.Values
    ensures ok ==> Filling(at', Snapshot(at'), root, flat, delimiter, left - {key}, order + [key])
    ensures !ok ==>
            LastFails(flat, delimiter, order + [key]) && (!Apart(flat, delimiter) || HasNoParts(flat, delimiter))
    ensures ok ==> forall p {:trigger at'[p]} :: p in at' ==> at'[p] in at.Values || fresh(at'[p])
  {
    SomeParts(key, delimiter);
    var parts := Split(key, delimiter);
    ghost var leaves := Leaves(Snapshot(at));
    OrderedNext(flat, delimiter, left, order, leaves, key);
    if |parts| == 0 { return false, at; }
    if Blocked(leaves, parts) { BlockedNotApart(flat, delimiter, leaves, key); }
    ProgressNext(flat, delimiter, left, leaves, key);
    ok, at' := Put(root, parts, flat[key], at);
  }

  method Fill(root: Dict, flat: map<string, int>, delimiter: string, ghost start: Places)
    returns (ok: bool, ghost at: Places, ghost order: seq<string>)
    requires Filling(start, Snapshot(start), root, flat, delimiter, flat.Keys, [])
    modifies start.Values
    ensures ok ==> Filling(at, Snapshot(at), root, flat, delimiter, {}, order)
    ensures !ok ==> LastFails(flat, delimiter, order) && (!Apart(flat, delimiter) || HasNoParts(flat, delimiter))
    ensures ok ==> forall p {:trigger at[p]} :: p in at ==> at[p] in start.Values || fresh(at[p])
  {
    at, order := start, [];
    var left: set<string> := flat.Keys;
    while left != {}
      invariant Filling(at, Snapshot(at), root, flat, delimiter, left, order)
      invariant forall p {:trigger at[p]} :: p in at ==> at[p] in start.Values || fresh(at[p])
      decreases left
    {
      var key := AnyOf(left);
      ok, at := StoreKey(root, flat, delimiter, key, left, order, at);
      order := order + [key];
      if !ok { return; }
      left := left - {key};
    }
    ok := true;
  }

  /** Unflatten panics or loses an entry exactly if the parts of one key are a prefix of another's; in any case the
      result is what storing the keys in some order gives. */
  method Unflatten(flat: map<string, int>, delimiter: string)
    returns (outcome: Outcome<Dict>, ghost at: Places, ghost order: seq<string>)
    ensures outcome.Panic? ==>
            LastFails(flat, delimiter, order) && (!Apart(flat, delimiter) || HasNoParts(flat, delimiter))
    ensures HasNoParts(flat, delimiter) ==> outcome.Panic?
    ensures outcome.Done? ==>
              && Good(at, Snapshot(at), outcome.value) && FilledBut(Snapshot(at), [])
              && StoresAll(flat, delimiter, order, Leaves(Snapshot(at))) &&
                 Outcomes(flat, delimiter, Leaves(Snapshot(at)))
    ensures outcome.Done? ==> forall p {:trigger at[p]} :: p in at ==> fresh(at[p])
  {
    var result := new Dict();
    at := map[[] := result];
    Fresh(at, Snapshot(at), result);
    var ok;
    ok, at, order := Fill(result, flat, delimiter, at);
    if !ok { return Panic, at, order; }
    FilledOutcomes(at, Snapshot(at), result, flat, delimiter, order);
    outcome := Done(result);
  }

  lemma FilledOutcomes(at: Places, view: View, root: Dict, flat: map<string, int>, d: string, order: seq<string>)
    requires Filling(at, view, root, flat, d, {}, order)
    ensures StoresAll(flat, d, order, Leaves(view)) && Outcomes(flat, d, Leaves(view)) && !HasNoParts(flat, d)
  {
    OrderedDone(flat, d, {}, order, Leaves(view));
    if Apart(flat, d) { ProgressDone(flat, d, {}, Leaves(view)); }
    if AllKeys(flat, d, Leaves(view)) { AllKeysApart(at, view, flat, d); }
  }

  /** When all entries are kept the result does not depend on the order of the keys. */
  lemma AnyOrder(flat: map<string, int>, d: string, a: map<seq<string>, int>, b: map<seq<string>, int>)
    requires Apart(flat, d) && Outcomes(flat, d, a) && Outcomes(flat, d, b)
    ensures a == b
  {
    forall p
      ensures p in a <==> p in b
      ensures p in a && p in b ==> a[p] == b[p]
    {
      if p in a { assert ComesFrom(flat, d, p, a[p]); }
      if p in b { assert ComesFrom(flat, d, p, b[p]); }
    }
  }

  lemma Fresh(at: Places, view: View, root: Dict)
    requires at == map[[] := root] && view == map[[] := map[]]
    ensures Good(at, view, root) && FilledBut(view, []) && Leaves(view) == map[]
  {
    forall p ensures p !in Leaves(view) { LeafIsValue(view, p); }
  }
}
