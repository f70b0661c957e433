/** Unflatten on flat maps in which the parts of one key are a prefix of another's: what the order of the keys
    decides. */
module UnflattenOrder {
  import opened Delimiters
  import opened FlatKeys
  import opened MapUnflatten

  // ---------- what is left when every key is stored ----------

  /** No other of the keys has parts that are a prefix of the parts of k. */
  ghost predicate IsMinimal(keys: set<string>, d: string, k: string)
  {
    k in keys && forall m :: m in keys && Split(m, d) <= Split(k, d) ==> m == k
  }

  ghost predicate IsLeafOf(keys: set<string>, flat: map<string, int>, d: string, p: seq<string>, v: int)
  {
    exists k :: IsMinimal(keys, d, k) && k in flat && Split(k, d) == p && flat[k] == v
  }

  ghost predicate LeafBefore(leaves: map<seq<string>, int>, p: seq<string>)
  {
    exists q :: q in leaves && q <= p
  }

  /** The leaves are the minimal keys with their values. */
  ghost predicate AreMinimal(keys: set<string>, flat: map<string, int>, d: string, leaves: map<seq<string>, int>)
  {
    && (forall k :: IsMinimal(keys, d, k) ==> k in flat && Split(k, d) in leaves && leaves[Split(k, d)] == flat[k])
    && (forall p :: p in leaves ==> IsLeafOf(keys, flat, d, p, leaves[p]))
  }

  /** Moreover every key is at or below a leaf. */
  ghost predicate Covers(keys: set<string>, flat: map<string, int>, d: string, leaves: map<seq<string>, int>)
  {
    AreMinimal(keys, flat, d, leaves) && forall k :: k in keys ==> LeafBefore(leaves, Split(k, d))
  }

  lemma PrefixBlocks(leaves: map<seq<string>, int>, parts: seq<string>, q: seq<string>)
    requires q in leaves && q <= parts && q != [] && !Blocked(leaves, parts)
    ensures q == parts
  {
    assert parts[..|q|] == q && !(0 < |q| < |parts|);
  }

  /** Where a key can be stored, no key before it has parts that are a prefix of its parts. */
  lemma NoneBefore(d: string, leaves: map<seq<string>, int>, key: string, m: string)
    requires LeafBefore(leaves, Split(m, d)) && [] !in leaves && m != key && !Blocked(leaves, Split(key, d))
    ensures !(Split(m, d) <= Split(key, d))
  {
    var q :| q in leaves && q <= Split(m, d);
    if Split(m, d) <= Split(key, d) {
      PrefixBlocks(leaves, Split(key, d), q);
      SplitInjective(m, key, d);
    }
  }

  lemma StoredCovers(keys: set<string>, flat: map<string, int>, d: string, leaves: map<seq<string>, int>, key: string)
    requires Covers(keys, flat, d, leaves) && key in flat
    ensures forall k :: k in keys + {key} ==> LeafBefore(Stored(leaves, Split(key, d), flat[key]), Split(k, d))
  {
    var path := Split(key, d);
    var after := Stored(leaves, path, flat[key]);
    forall k | k in keys + {key}
      ensures LeafBefore(after, Split(k, d))
    {
      assert path in after;
      if k in keys {
        assert LeafBefore(leaves, Split(k, d));
        var q :| q in leaves && q <= Split(k, d);
        if !(path <= q) { assert q in after; }
      }
    }
  }

  lemma MinimalNext(keys: set<string>, d: string, key: string, k: string)
    requires key !in keys && forall m :: m in keys ==> !(Split(m, d) <= Split(key, d))
    ensures IsMinimal(keys + {key}, d, k) <==> k == key || (IsMinimal(keys, d, k) && !(Split(key, d) <= Split(k, d)))
  {}

  lemma StoredMinimal(keys: set<string>, flat: map<string, int>, d: string, leaves: map<seq<string>, int>, key: string)
    requires AreMinimal(keys, flat, d, leaves) && key in flat && key !in keys
    requires forall m :: m in keys ==> !(Split(m, d) <= Split(key, d))
    ensures AreMinimal(keys + {key}, flat, d, Stored(leaves, Split(key, d), flat[key]))
  {
    var path, more := Split(key, d), keys + {key};
    var after := Stored(leaves, path, flat[key]);
    forall k
      ensures IsMinimal(more, d, k) <==> k == key || (IsMinimal(keys, d, k) && !(path <= Split(k, d)))
    {
      MinimalNext(keys, d, key, k);
    }
    forall p | p in after
      ensures IsLeafOf(more, flat, d, p, after[p])
    {
      if p == path {
        assert IsMinimal(more, d, key);
      } else {
        assert IsLeafOf(keys, flat, d, p, leaves[p]);
        var k :| IsMinimal(keys, d, k) && k in flat && Split(k, d) == p && flat[k] == leaves[p];
        assert IsMinimal(more, d, k);
      }
    }
  }

  ghost function KeysOf(order: seq<string>): set<string>
  {
    set k | k in order
  }

  lemma StoredNext(keys: set<string>, flat: map<string, int>, d: string, leaves: map<seq<string>, int>, key: string)
    requires Covers(keys, flat, d, leaves) && [] !in leaves && key in flat && key !in keys
    requires |Split(key, d)| > 0 && !Blocked(leaves, Split(key, d))
    ensures Covers(keys + {key}, flat, d, Stored(leaves, Split(key, d), flat[key]))
    ensures [] !in Stored(leaves, Split(key, d), flat[key])
  {
    forall m | m in keys
      ensures !(Split(m, d) <= Split(key, d))
    {
      NoneBefore(d, leaves, key, m);
    }
    StoredMinimal(keys, flat, d, leaves, key);
    StoredCovers(keys, flat, d, leaves, key);
  }

  lemma KeysNext(before: seq<string>, last: string)
    ensures KeysOf(before + [last]) == KeysOf(before) + {last}
  {}

  /** What holds when the keys in this order have been stored. */
  ghost predicate KeysStored(flat: map<string, int>, d: string, order: seq<string>)
    requires forall k :: k in order ==> k in flat
  {
    exists leaves :: leaves == PutAll(flat, d, order) && Covers(KeysOf(order), flat, d, leaves) && [] !in leaves
  }

  lemma OneMoreStored(flat: map<string, int>, d: string, before: seq<string>, last: string)
    requires (forall k :: k in before ==> k in flat) && KeysStored(flat, d, before)
    requires last in flat && last !in before && !Fails(flat, d, before, last)
    ensures Covers(KeysOf(before) + {last}, flat, d, Stored(PutAll(flat, d, before), Split(last, d), flat[last]))
    ensures [] !in Stored(PutAll(flat, d, before), Split(last, d), flat[last])
  {
    StoredNext(KeysOf(before), flat, d, PutAll(flat, d, before), last);
  }

  lemma PutNext(flat: map<string, int>, d: string, before: seq<string>, last: string)
    requires (forall k :: k in before ==> k in flat) && last in flat
    ensures PutAll(flat, d, before + [last]) == Stored(PutAll(flat, d, before), Split(last, d), flat[last])
  {
    assert (before + [last])[..|before|] == before;
  }

  lemma AfterLast(flat: map<string, int>, d: string, before: seq<string>, last: string, order: seq<string>)
    requires (forall k :: k in before ==> k in flat) && KeysStored(flat, d, before) && order == before + [last]
    requires last in flat && last !in before && !Fails(flat, d, before, last)
    ensures (forall k :: k in order ==> k in flat) && KeysStored(flat, d, order)
  {
    OneMoreStored(flat, d, before, last);
    PutNext(flat, d, before, last);
    KeysNext(before, last);
  }

  lemma BeforeFirst(flat: map<string, int>, d: string)
    ensures KeysStored(flat, d, [])
  {
    assert KeysOf([]) == {} && PutAll(flat, d, []) == map[];
    assert Covers(KeysOf([]), flat, d, PutAll(flat, d, []));
  }

  lemma LastGoes(flat: map<string, int>, d: string, before: seq<string>, last: string)
    requires GoesThrough(flat, d, before + [last])
    ensures GoesThrough(flat, d, before) && (forall k :: k in before ==> k in flat)
    ensures last in flat && last !in before && !Fails(flat, d, before, last)
  {
    var order := before + [last];
    assert order[..|order| - 1] == before && order[|order| - 1] == last;
  }

  lemma {:induction false} StoredKeys(flat: map<string, int>, d: string, order: seq<string>)
    requires GoesThrough(flat, d, order) && forall k :: k in order ==> k in flat
    ensures KeysStored(flat, d, order)
  {
    if order == [] {
      BeforeFirst(flat, d);
    } else {
      var before, last := order[..|order| - 1], order[|order| - 1];
      assert order == before + [last];
      LastGoes(flat, d, before, last);
      StoredKeys(flat, d, before);
      AfterLast(flat, d, before, last, order);
    }
  }

  /** Whenever all keys are stored, exactly those are left of whose parts no other key's parts are a prefix. */
  lemma MinimalKeysStay(flat: map<string, int>, d: string, order: seq<string>, leaves: map<seq<string>, int>)
    requires StoresAll(flat, d, order, leaves)
    ensures AreMinimal(flat.Keys, flat, d, leaves)
  {
    StoredKeys(flat, d, order);
    assert KeysOf(order) == flat.Keys;
  }

  /** So what Unflatten returns, if it returns, never depends on the order of the keys. */
  lemma OneResult(flat: map<string, int>, d: string, a: map<seq<string>, int>, b: map<seq<string>, int>)
    requires AreMinimal(flat.Keys, flat, d, a) && AreMinimal(flat.Keys, flat, d, b)
    ensures a == b
  {
    forall p
      ensures p in a <==> p in b
      ensures p in a && p in b ==> a[p] == b[p]
    {
      if p in a { assert IsLeafOf(flat.Keys, flat, d, p, a[p]); }
      if p in b { assert IsLeafOf(flat.Keys, flat, d, p, b[p]); }
    }
  }

  // ---------- when it returns ----------

  /** Some order of the keys panics. */
  ghost predicate CanPanic(flat: map<string, int>, d: string)
  {
    exists order :: LastFails(flat, d, order)
  }

  /** Some order stores every key. */
  ghost predicate CanReturn(flat: map<string, int>, d: string)
  {
    exists order, leaves :: StoresAll(flat, d, order, leaves)
  }

  lemma FirstFails(flat: map<string, int>, d: string, key: string)
    requires key in flat && |Split(key, d)| == 0
    ensures CanPanic(flat, d)
  {
    var order := [key];
    assert order[..0] == [] && Fails(flat, d, [], key);
    assert LastFails(flat, d, order);
  }

  lemma SecondFails(flat: map<string, int>, d: string, j: string, k: string)
    requires j in flat && k in flat && j != k && Split(j, d) <= Split(k, d) && |Split(j, d)| > 0
    ensures CanPanic(flat, d)
  {
    var one, order := [j], [j, k];
    assert one[..0] == [] && order[..1] == one && PutAll(flat, d, []) == map[];
    assert GoesThrough(flat, d, []) && !Fails(flat, d, [], j);
    assert GoesThrough(flat, d, one);
    if |Split(j, d)| == |Split(k, d)| {
      assert Split(j, d) == Split(k, d);
      SplitInjective(j, k, d);
    }
    assert Split(k, d)[..|Split(j, d)|] == Split(j, d) && Split(j, d) in PutAll(flat, d, one);
    assert Fails(flat, d, one, k);
    assert LastFails(flat, d, order);
  }

  lemma FailsNotApart(flat: map<string, int>, d: string, order: seq<string>)
    requires LastFails(flat, d, order) && !HasNoParts(flat, d)
    ensures !Apart(flat, d)
  {
    var before, last := order[..|order| - 1], order[|order| - 1];
    SomeParts(last, d);
    StoredKeys(flat, d, before);
    var leaves := PutAll(flat, d, before);
    forall p {:trigger p in leaves} | p in leaves
      ensures ComesFrom(flat, d, p, leaves[p])
    {
      assert IsLeafOf(KeysOf(before), flat, d, p, leaves[p]);
    }
    BlockedNotApart(flat, d, leaves, last);
  }

  /** Some order panics if and only if one key's parts are a prefix of another's, or a key has no parts. */
  lemma PanicsInSomeOrder(flat: map<string, int>, d: string)
    ensures CanPanic(flat, d) <==> !Apart(flat, d) || HasNoParts(flat, d)
  {
    if CanPanic(flat, d) && !HasNoParts(flat, d) {
      var order :| LastFails(flat, d, order);
      FailsNotApart(flat, d, order);
    }
    if HasNoParts(flat, d) {
      FirstFails(flat, d, "");
    } else if !Apart(flat, d) {
      var j, k :| j in flat && k in flat && Split(j, d) <= Split(k, d) && j != k;
      SomeParts(j, d);
      SecondFails(flat, d, j, k);
    }
  }

  /** Of some keys none has fewer parts. */
  lemma {:induction false} Shortest(keys: set<string>, d: string) returns (k: string)
    requires keys != {}
    ensures k in keys && forall m :: m in keys ==> |Split(k, d)| <= |Split(m, d)|
    decreases keys
  {
    k :| k in keys;
    if keys != {k} {
      var m := Shortest(keys - {k}, d);
      if |Split(m, d)| < |Split(k, d)| { k := m; }
    }
  }

  /** Storing the keys with more parts first, none of them fails. */
  lemma {:induction false} LongestFirst(flat: map<string, int>, d: string, keys: set<string>)
    returns (order: seq<string>)
    requires keys <= flat.Keys && !HasNoParts(flat, d)
    ensures KeysOf(order) == keys && (forall k :: k in order ==> k in flat) && GoesThrough(flat, d, order)
    decreases keys
  {
    if keys == {} {
      order := [];
    } else {
      var k := Shortest(keys, d);
      var before := LongestFirst(flat, d, keys - {k});
      SomeParts(k, d);
      NotBlocked(flat, d, before, k);
      order := before + [k];
      assert order[..|order| - 1] == before;
      KeysNext(before, k);
    }
  }

  lemma NotBlocked(flat: map<string, int>, d: string, before: seq<string>, k: string)
    requires GoesThrough(flat, d, before) && (forall m :: m in before ==> m in flat)
    requires forall m :: m in KeysOf(before) ==> |Split(k, d)| <= |Split(m, d)|
    ensures !Blocked(PutAll(flat, d, before), Split(k, d))
  {
    var leaves, parts := PutAll(flat, d, before), Split(k, d);
    StoredKeys(flat, d, before);
    forall i | 0 < i < |parts|
      ensures parts[..i] !in leaves
    {
      assert parts[..i] in leaves ==> IsLeafOf(KeysOf(before), flat, d, parts[..i], leaves[parts[..i]]);
    }
  }

  /** Some order stores all keys unless a key has no parts. */
  lemma ReturnsInSomeOrder(flat: map<string, int>, d: string)
    ensures CanReturn(flat, d) <==> !HasNoParts(flat, d)
  {
    if HasNoParts(flat, d) {
      forall order, leaves
        ensures !StoresAll(flat, d, order, leaves)
      {
        NeverStored(flat, d, order, leaves);
      }
    } else {
      var order := LongestFirst(flat, d, flat.Keys);
      forall k
        ensures k in order <==> k in flat
      {
        assert k in KeysOf(order) <==> k in flat.Keys;
      }
      assert StoresAll(flat, d, order, PutAll(flat, d, order));
    }
  }

  lemma NeverStored(flat: map<string, int>, d: string, order: seq<string>, leaves: map<seq<string>, int>)
    requires HasNoParts(flat, d)
    ensures !StoresAll(flat, d, order, leaves)
  {
    if StoresAll(flat, d, order, leaves) {
      assert "" in order;
      var n :| 0 <= n < |order| && order[n] == "";
      SomeParts("", d);
      StoredHasParts(flat, d, order, n);
    }
  }

  lemma {:induction false} StoredHasParts(flat: map<string, int>, d: string, order: seq<string>, n: int)
    requires GoesThrough(flat, d, order) && 0 <= n < |order|
    ensures |Split(order[n], d)| > 0
    decreases |order|
  {
    if n < |order| - 1 { StoredHasParts(flat, d, order[..|order| - 1], n); }
  }
}
