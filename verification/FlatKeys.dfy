/** Nested maps, the flat keys that Flatten gives to their leaves, and when Unflatten can restore them. */
module FlatKeys {
  import opened Delimiters
  import opened Counting

  /** A value is a nested map or anything else. */
  datatype Tree = Leaf(value: int) | Map(entries: map<string, Tree>)

  ghost predicate IsLeaf(t: Tree, p: seq<string>, v: int)
    decreases p
  {
    match t
    case Leaf(w) => p == [] && w == v
    case Map(e) => |p| > 0 && p[0] in e && IsLeaf(e[p[0]], p[1..], v)
  }

  /** The paths of all leaves. */
  ghost function Paths(t: Tree): set<seq<string>>
  {
    match t
    case Leaf(_) => {[]}
    case Map(e) => set k, p | k in e && p in Paths(e[k]) :: [k] + p
  }

  ghost predicate HasLeaf(t: Tree, p: seq<string>)
  {
    exists v :: IsLeaf(t, p, v)
  }

  lemma {:induction false} PathsAreLeaves(t: Tree, p: seq<string>)
    ensures p in Paths(t) <==> HasLeaf(t, p)
    decreases t
  {
    match t
    case Leaf(w) =>
      assert IsLeaf(t, [], w);
    case Map(e) =>
      if p in Paths(t) {
        var k, q :| k in e && q in Paths(e[k]) && p == [k] + q;
        PathsAreLeaves(e[k], q);
        var v :| IsLeaf(e[k], q, v);
        assert p[1..] == q && IsLeaf(t, p, v);
      }
      if HasLeaf(t, p) {
        var v :| IsLeaf(t, p, v);
        PathsAreLeaves(e[p[0]], p[1..]);
        assert IsLeaf(e[p[0]], p[1..], v);
        assert p == [p[0]] + p[1..];
      }
  }

  /** No leaf lies below another. */
  lemma {:induction false} LeavesApart(t: Tree, p: seq<string>, v: int, q: seq<string>, w: int)
    requires IsLeaf(t, p, v) && IsLeaf(t, q, w) && p <= q
    ensures p == q
    decreases p
  {
    if t.Map? {
      assert q[0] == p[0] && p[1..] <= q[1..];
      LeavesApart(t.entries[p[0]], p[1..], v, q[1..], w);
      assert p == [p[0]] + p[1..] && q == [q[0]] + q[1..];
    }
  }

  // ---------- flat keys ----------

  /** The test for an empty prefix also meets an empty first key. */
  function Extend(prefix: string, k: string, d: string): string
  {
    if prefix != "" then prefix + d + k else k
  }

  function KeyFrom(prefix: string, p: seq<string>, d: string): string
    decreases |p|
  {
    if p == [] then prefix else KeyFrom(Extend(prefix, p[0], d), p[1..], d)
  }

  function FlatKey(p: seq<string>, d: string): string
  {
    KeyFrom("", p, d)
  }

  lemma {:induction false} KeyFromPrefix(prefix: string, p: seq<string>, d: string)
    requires prefix != "" && p != []
    ensures KeyFrom(prefix, p, d) == prefix + d + Join(p, d)
    decreases |p|
  {
    if |p| == 1 {
      assert KeyFrom(prefix + d + p[0], p[1..], d) == prefix + d + p[0];
    } else {
      KeyFromPrefix(prefix + d + p[0], p[1..], d);
      assert prefix + d + p[0] + d + Join(p[1..], d) == prefix + d + (p[0] + d + Join(p[1..], d));
    }
  }

  /** The leading empty keys of a path are lost. */
  ghost predicate Drops(p: seq<string>)
  {
    |p| > 1 && p[0] == ""
  }

  /** Unless an empty key is dropped with its delimiter, the flat key is the joined path. */
  lemma {:induction false} FlatKeyIsJoin(p: seq<string>, d: string)
    requires p != []
    ensures !Drops(p) || d == "" ==> FlatKey(p, d) == Join(p, d)
    ensures Drops(p) && d != "" ==> |FlatKey(p, d)| < |Join(p, d)|
    decreases |p|
  {
    if |p| == 1 {
      assert KeyFrom(p[0], p[1..], d) == p[0];
    } else if p[0] != "" {
      KeyFromPrefix(p[0], p[1..], d);
    } else {
      FlatKeyIsJoin(p[1..], d);
      assert FlatKey(p, d) == FlatKey(p[1..], d);
      if d == "" {
        assert p == [""] + p[1..];
        JoinCons("", p[1..]);
      }
    }
  }

  // ---------- what Flatten and Unflatten produce ----------

  /** v is the value of a leaf with this flat key. */
  ghost predicate ValueOf(t: Tree, prefix: string, d: string, key: string, v: int)
  {
    exists p :: IsLeaf(t, p, v) && KeyFrom(prefix, p, d) == key
  }

  ghost predicate KeyOf(t: Tree, prefix: string, d: string, key: string)
  {
    exists v :: ValueOf(t, prefix, d, key, v)
  }

  /** The flat map has the keys of the leaves, and for each key the value of a leaf with that key. */
  ghost predicate IsFlat(t: Tree, d: string, flat: map<string, int>)
  {
    && (forall key {:trigger key in flat} :: key in flat <==> KeyOf(t, "", d, key))
    && (forall key {:trigger flat[key]} :: key in flat ==> ValueOf(t, "", d, key, flat[key]))
  }

  /** No key's parts are a prefix of another key's parts. */
  ghost predicate Apart(flat: map<string, int>, d: string)
  {
    forall j, k {:trigger Split(j, d), Split(k, d)} :: j in flat && k in flat && Split(j, d) <= Split(k, d) ==> j == k
  }

  /** Every leaf of the unflattened map comes from a key. */
  ghost predicate FromKeys(flat: map<string, int>, d: string, leaves: map<seq<string>, int>)
  {
    forall p {:trigger p in leaves} :: p in leaves ==> ComesFrom(flat, d, p, leaves[p])
  }

  ghost predicate ComesFrom(flat: map<string, int>, d: string, p: seq<string>, v: int)
  {
    exists k :: k in flat && Split(k, d) == p && flat[k] == v
  }

  ghost predicate AllKeys(flat: map<string, int>, d: string, leaves: map<seq<string>, int>)
  {
    forall k {:trigger k in flat} :: k in flat ==> Split(k, d) in leaves && leaves[Split(k, d)] == flat[k]
  }

  /** The unflattened map has exactly the leaves of t. */
  ghost predicate SameLeaves(t: Tree, leaves: map<seq<string>, int>)
  {
    && (forall p {:trigger p in leaves} :: p in leaves <==> p in Paths(t))
    && (forall p {:trigger leaves[p]} :: p in leaves ==> IsLeaf(t, p, leaves[p]))
  }

  /** The keys along the path survive: no leading empty key is lost, and the delimiter falls where it was put. */
  ghost predicate Survives(p: seq<string>, d: string)
  {
    !Drops(p) && Splittable(p, d)
  }

  ghost predicate Restorable(t: Tree, d: string)
  {
    forall p {:trigger p in Paths(t)} :: p in Paths(t) ==> Survives(p, d)
  }

  lemma RootPath(t: Tree, p: seq<string>)
    requires t.Map? && p in Paths(t)
    ensures p != []
  {}

  lemma SurvivesSplit(p: seq<string>, d: string)
    requires p != [] && Survives(p, d)
    ensures Split(FlatKey(p, d), d) == p
  {
    FlatKeyIsJoin(p, d);
    SplitJoin(p, d);
  }

  /** A leaf whose path survives is found under its flat key. */
  lemma KeyOfPath(t: Tree, d: string, flat: map<string, int>, key: string)
    requires t.Map? && IsFlat(t, d, flat) && Restorable(t, d) && key in flat
    ensures Split(key, d) in Paths(t) && IsLeaf(t, Split(key, d), flat[key]) && FlatKey(Split(key, d), d) == key
  {
    var v := flat[key];
    assert ValueOf(t, "", d, key, v);
    var p :| IsLeaf(t, p, v) && KeyFrom("", p, d) == key;
    PathsAreLeaves(t, p);
    assert p in Paths(t);
    SurvivesSplit(p, d);
  }

  /** Then no key's parts are a prefix of another's, so no order of the keys makes Unflatten panic or lose a leaf. */
  lemma RestorableApart(t: Tree, d: string, flat: map<string, int>)
    requires t.Map? && IsFlat(t, d, flat) && Restorable(t, d)
    ensures Apart(flat, d)
  {
    forall j, k {:trigger Split(j, d), Split(k, d)} | j in flat && k in flat && Split(j, d) <= Split(k, d)
      ensures j == k
    {
      KeyOfPath(t, d, flat, j);
      KeyOfPath(t, d, flat, k);
      LeavesApart(t, Split(j, d), flat[j], Split(k, d), flat[k]);
    }
  }

  lemma PathInFlat(t: Tree, d: string, flat: map<string, int>, p: seq<string>)
    requires IsFlat(t, d, flat) && p in Paths(t)
    ensures FlatKey(p, d) in flat
  {
    PathsAreLeaves(t, p);
    var v :| IsLeaf(t, p, v);
    assert ValueOf(t, "", d, FlatKey(p, d), v);
    assert KeyOf(t, "", d, FlatKey(p, d));
  }

  lemma RestoresLeaves(t: Tree, d: string, flat: map<string, int>, leaves: map<seq<string>, int>)
    requires t.Map? && IsFlat(t, d, flat) && Restorable(t, d)
    requires FromKeys(flat, d, leaves) && AllKeys(flat, d, leaves)
    ensures SameLeaves(t, leaves)
  {
    forall p {:trigger p in leaves} | p in leaves
      ensures p in Paths(t) && IsLeaf(t, p, leaves[p])
    {
      assert ComesFrom(flat, d, p, leaves[p]);
      var k :| k in flat && Split(k, d) == p && flat[k] == leaves[p];
      KeyOfPath(t, d, flat, k);
    }
    forall p {:trigger p in Paths(t)} | p in Paths(t)
      ensures p in leaves
    {
      PathInFlat(t, d, flat, p);
      SurvivesSplit(p, d);
    }
  }

  // ---------- the condition is necessary ----------

  ghost function Joined(d: string): seq<string> -> string
  {
    p => Join(p, d)
  }

  ghost function Flattened(d: string): seq<string> -> string
  {
    p => FlatKey(p, d)
  }

  /** The unflattened map has a leaf for every leaf of t, and those come from keys. */
  ghost predicate Restored(t: Tree, d: string, flat: map<string, int>, leaves: map<seq<string>, int>)
  {
    t.Map? && IsFlat(t, d, flat) && FromKeys(flat, d, leaves) && forall p {:trigger p in Paths(t)} :: p in Paths(t) ==>
      p in leaves
  }

  lemma RestoredPath(t: Tree, d: string, flat: map<string, int>, leaves: map<seq<string>, int>, p: seq<string>)
    requires Restored(t, d, flat, leaves) && p in Paths(t)
    ensures Join(p, d) in flat && Split(Join(p, d), d) == p && Splittable(p, d)
  {
    assert p in leaves;
    assert ComesFrom(flat, d, p, leaves[p]);
    var k :| k in flat && Split(k, d) == p && flat[k] == leaves[p];
    JoinSplit(k, d);
    RootPath(t, p);
    SplitJoin(p, d);
  }

  /** Paths are as many as keys: joining is injective on them, and flattening covers the keys. */
  lemma AsManyKeys(t: Tree, d: string, flat: map<string, int>, leaves: map<seq<string>, int>, s: set<seq<string>>,
                   keys: set<string>)
    requires Restored(t, d, flat, leaves) && s <= Paths(t)
    requires forall p {:trigger p in s} :: p in s ==> Join(p, d) in keys
    ensures |s| <= |keys|
  {
    forall p {:trigger p in s} | p in s
      ensures Split(Join(p, d), d) == p
    {
      RestoredPath(t, d, flat, leaves, p);
    }
    InjectionSize(s, keys, Joined(d));
  }

  ghost predicate HasFlatKey(s: set<seq<string>>, d: string, key: string)
  {
    exists p :: p in s && FlatKey(p, d) == key
  }

  lemma CoveredKeys(d: string, flat: map<string, int>, s: set<seq<string>>)
    requires forall key {:trigger key in flat} :: key in flat ==> HasFlatKey(s, d, key)
    ensures |flat.Keys| <= |s|
  {
    forall key | key in flat.Keys
      ensures exists p :: p in s && Flattened(d)(p) == key
    {
      assert HasFlatKey(s, d, key);
      var p :| p in s && FlatKey(p, d) == key;
      assert Flattened(d)(p) == key;
    }
    SurjectionSize(s, flat.Keys, Flattened(d));
  }

  lemma KeyHasPath(t: Tree, d: string, flat: map<string, int>, key: string)
    requires IsFlat(t, d, flat) && key in flat
    ensures HasFlatKey(Paths(t), d, key)
  {
    assert ValueOf(t, "", d, key, flat[key]);
    var p :| IsLeaf(t, p, flat[key]) && KeyFrom("", p, d) == key;
    PathsAreLeaves(t, p);
    assert p in Paths(t) && FlatKey(p, d) == key;
  }

  lemma PathsAtMostKeys(t: Tree, d: string, flat: map<string, int>, leaves: map<seq<string>, int>, keys: set<string>)
    requires Restored(t, d, flat, leaves)
    requires forall p {:trigger p in Paths(t)} :: p in Paths(t) && Join(p, d) in flat ==> Join(p, d) in keys
    ensures |Paths(t)| <= |keys|
  {
    forall p {:trigger p in Paths(t)} | p in Paths(t)
      ensures Join(p, d) in keys
    {
      RestoredPath(t, d, flat, leaves, p);
    }
    AsManyKeys(t, d, flat, leaves, Paths(t), keys);
  }

  lemma SomeOther(t: Tree, d: string, flat: map<string, int>, p: seq<string>, q: seq<string>, key: string)
    requires IsFlat(t, d, flat) && key in flat
    requires p in Paths(t) && q in Paths(t) && p != q && FlatKey(p, d) == FlatKey(q, d)
    ensures HasFlatKey(Paths(t) - {p}, d, key)
  {
    KeyHasPath(t, d, flat, key);
    var r :| r in Paths(t) && FlatKey(r, d) == key;
    var other := if r == p then q else r;
    assert other in Paths(t) - {p} && FlatKey(other, d) == key;
  }

  lemma KeysFewerThanPaths(t: Tree, d: string, flat: map<string, int>, p: seq<string>, q: seq<string>)
    requires IsFlat(t, d, flat)
    requires p in Paths(t) && q in Paths(t) && p != q && FlatKey(p, d) == FlatKey(q, d)
    ensures |flat.Keys| < |Paths(t)|
  {
    forall key {:trigger key in flat} | key in flat
      ensures HasFlatKey(Paths(t) - {p}, d, key)
    {
      SomeOther(t, d, flat, p, q, key);
    }
    CoveredKeys(d, flat, Paths(t) - {p});
  }

  /** So no two leaves share a flat key, */
  lemma FlatKeysDiffer(t: Tree, d: string, flat: map<string, int>, leaves: map<seq<string>, int>, p: seq<string>,
                       q: seq<string>)
    requires Restored(t, d, flat, leaves) && p in Paths(t) && q in Paths(t) && FlatKey(p, d) == FlatKey(q, d)
    ensures p == q
  {
    PathsAtMostKeys(t, d, flat, leaves, flat.Keys);
    if p != q { KeysFewerThanPaths(t, d, flat, p, q); }
  }

  lemma KeysAtMostPaths(t: Tree, d: string, flat: map<string, int>)
    requires IsFlat(t, d, flat)
    ensures |flat.Keys| <= |Paths(t)|
  {
    forall k {:trigger k in flat} | k in flat
      ensures HasFlatKey(Paths(t), d, k)
    {
      KeyHasPath(t, d, flat, k);
    }
    CoveredKeys(d, flat, Paths(t));
  }

  ghost predicate IsJoined(t: Tree, d: string, key: string)
  {
    exists q :: q in Paths(t) && Join(q, d) == key
  }

  /** and every key is some path joined. */
  lemma KeyIsJoined(t: Tree, d: string, flat: map<string, int>, leaves: map<seq<string>, int>, key: string)
    requires Restored(t, d, flat, leaves) && key in flat
    ensures IsJoined(t, d, key)
  {
    KeysAtMostPaths(t, d, flat);
    if !IsJoined(t, d, key) {
      PathsAtMostKeys(t, d, flat, leaves, flat.Keys - {key});
    }
  }

  /** A path that drops its first key would have a shorter one that does. */
  lemma {:induction false} NothingDropped(t: Tree, d: string, flat: map<string, int>, leaves: map<seq<string>, int>,
                                          p: seq<string>)
    requires Restored(t, d, flat, leaves) && p in Paths(t)
    ensures !Drops(p)
    decreases |Join(p, d)|
  {
    if d == "" {
      RestoredPath(t, d, flat, leaves, p);
      return;
    }
    RootPath(t, p);
    FlatKeyIsJoin(p, d);
    PathInFlat(t, d, flat, p);
    KeyIsJoined(t, d, flat, leaves, FlatKey(p, d));
    if Drops(p) {
      var q :| q in Paths(t) && Join(q, d) == FlatKey(p, d);
      NothingDropped(t, d, flat, leaves, q);
      RootPath(t, q);
      FlatKeyIsJoin(q, d);
      FlatKeysDiffer(t, d, flat, leaves, p, q);
    }
  }

  /** An empty delimiter makes no parts of an empty key, but such a key comes from no path of one-character keys. */
  lemma RestorableHasParts(t: Tree, d: string, flat: map<string, int>)
    requires t.Map? && IsFlat(t, d, flat) && Restorable(t, d) && d == ""
    ensures "" !in flat
  {
    assert Split("", d) == [];
    if "" in flat {
      KeyOfPath(t, d, flat, "");
      RootPath(t, Split("", d));
    }
  }

  lemma RestoredIsRestorable(t: Tree, d: string, flat: map<string, int>, leaves: map<seq<string>, int>)
    requires Restored(t, d, flat, leaves)
    ensures Restorable(t, d)
  {
    forall p {:trigger p in Paths(t)} | p in Paths(t)
      ensures Survives(p, d)
    {
      RestoredPath(t, d, flat, leaves, p);
      NothingDropped(t, d, flat, leaves, p);
    }
  }

  /** Any result of Unflatten has the leaves that were flattened exactly if every path survives. */
  lemma SameLeavesIff(t: Tree, d: string, flat: map<string, int>, leaves: map<seq<string>, int>)
    requires t.Map? && IsFlat(t, d, flat) && FromKeys(flat, d, leaves)
    requires Apart(flat, d) ==> AllKeys(flat, d, leaves)
    ensures SameLeaves(t, leaves) <==> Restorable(t, d)
  {
    if SameLeaves(t, leaves) {
      assert Restored(t, d, flat, leaves);
      RestoredIsRestorable(t, d, flat, leaves);
    }
    if Restorable(t, d) {
      RestorableApart(t, d, flat);
      RestoresLeaves(t, d, flat, leaves);
    }
  }

  /** In particular non-empty keys that share no character with the delimiter survive. */
  lemma ForeignRestorable(t: Tree, d: string)
    requires t.Map? && d != ""
    requires forall p, i {:trigger p in Paths(t), p[i]} :: p in Paths(t) && 0 <= i < |p| ==>
             p[i] != "" && forall c :: c in p[i] ==> c !in d
    ensures Restorable(t, d)
  {
    forall p {:trigger p in Paths(t)} | p in Paths(t)
      ensures Survives(p, d)
    {
      RootPath(t, p);
      ForeignKeys(p, d);
      assert p[0] != "";
    }
  }
}
