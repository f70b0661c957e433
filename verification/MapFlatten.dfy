/** Flatten: the recursion writes every leaf into one shared result, in whatever order the maps are iterated. */
module MapFlatten {
  import opened FlatKeys
  import opened Randomness

  /** After the leaves of t are written under the prefix: their keys are added, and hold the value of one of them. */
  ghost predicate Wrote(t: Tree, prefix: string, d: string, before: map<string, int>, after: map<string, int>)
  {
    && (forall key {:trigger key in after} :: key in after <==> key in before || KeyOf(t, prefix, d, key))
    && (forall key {:trigger after[key]} :: key in after && KeyOf(t, prefix, d, key) ==>
       ValueOf(t, prefix, d, key, after[key]))
    && (forall key {:trigger after[key]} :: key in after && !KeyOf(t, prefix, d, key) ==>
       key in before && after[key] == before[key])
  }

  lemma NothingWritten(prefix: string, d: string, before: map<string, int>)
    ensures Wrote(Map(map[]), prefix, d, before, before)
  {
    forall key
      ensures !KeyOf(Map(map[]), prefix, d, key)
    {
      forall v, p
        ensures !IsLeaf(Map(map[]), p, v)
      {}
    }
  }

  lemma LeafWritten(v: int, key: string, d: string, before: map<string, int>)
    ensures Wrote(Leaf(v), key, d, before, before[key := v])
  {
    assert IsLeaf(Leaf(v), [], v) && KeyFrom(key, [], d) == key;
    assert ValueOf(Leaf(v), key, d, key, v) && KeyOf(Leaf(v), key, d, key);
    forall other
      ensures KeyOf(Leaf(v), key, d, other) <==> other == key
      ensures forall w :: ValueOf(Leaf(v), key, d, other, w) ==> w == v
    {}
  }

  lemma ValueOfMore(part: map<string, Tree>, k: string, s: Tree, prefix: string, d: string, key: string, v: int)
    requires k !in part
    ensures ValueOf(Map(part[k := s]), prefix, d, key, v) <==>
            ValueOf(Map(part), prefix, d, key, v) || ValueOf(s, Extend(prefix, k, d), d, key, v)
  {
    var more := Map(part[k := s]);
    if ValueOf(more, prefix, d, key, v) {
      var p :| IsLeaf(more, p, v) && KeyFrom(prefix, p, d) == key;
      if p[0] == k {
        assert IsLeaf(s, p[1..], v) && KeyFrom(Extend(prefix, k, d), p[1..], d) == key;
      } else {
        assert IsLeaf(Map(part), p, v);
      }
    }
    if ValueOf(Map(part), prefix, d, key, v) {
      var p :| IsLeaf(Map(part), p, v) && KeyFrom(prefix, p, d) == key;
      assert IsLeaf(more, p, v);
    }
    if ValueOf(s, Extend(prefix, k, d), d, key, v) {
      var p :| IsLeaf(s, p, v) && KeyFrom(Extend(prefix, k, d), p, d) == key;
      assert ([k] + p)[1..] == p;
      assert IsLeaf(more, [k] + p, v) && KeyFrom(prefix, [k] + p, d) == key;
    }
  }

  lemma KeyOfMore(part: map<string, Tree>, k: string, s: Tree, prefix: string, d: string, key: string)
    requires k !in part
    ensures KeyOf(Map(part[k := s]), prefix, d, key) <==>
            KeyOf(Map(part), prefix, d, key) || KeyOf(s, Extend(prefix, k, d), d, key)
  {
    if KeyOf(Map(part[k := s]), prefix, d, key) {
      var v :| ValueOf(Map(part[k := s]), prefix, d, key, v);
      ValueOfMore(part, k, s, prefix, d, key, v);
    }
    if KeyOf(Map(part), prefix, d, key) {
      var v :| ValueOf(Map(part), prefix, d, key, v);
      ValueOfMore(part, k, s, prefix, d, key, v);
    }
    if KeyOf(s, Extend(prefix, k, d), d, key) {
      var v :| ValueOf(s, Extend(prefix, k, d), d, key, v);
      ValueOfMore(part, k, s, prefix, d, key, v);
    }
  }

  /** One more entry of the map written. */
  lemma EntryWritten(part: map<string, Tree>, k: string, s: Tree, prefix: string, d: string,
                     before: map<string, int>, middle: map<string, int>, after: map<string, int>)
    requires k !in part && Wrote(Map(part), prefix, d, before, middle) &&
             Wrote(s, Extend(prefix, k, d), d, middle, after)
    ensures Wrote(Map(part[k := s]), prefix, d, before, after)
  {
    forall key
      ensures key in after <==> key in before || KeyOf(Map(part[k := s]), prefix, d, key)
      ensures key in after && KeyOf(Map(part[k := s]), prefix, d, key) ==>
              ValueOf(Map(part[k := s]), prefix, d, key, after[key])
      ensures key in after && !KeyOf(Map(part[k := s]), prefix, d, key) ==> key in before && after[key] == before[key]
    {
      KeyOfMore(part, k, s, prefix, d, key);
      if key in after { ValueOfMore(part, k, s, prefix, d, key, after[key]); }
    }
  }

  class Flattener {
    var result: map<string, int>

    constructor ()
      ensures result == map[]
    {
      result := map[];
    }

    method FlattenHelper(m: Tree, prefix: string, delimiter: string)
      requires m.Map?
      modifies this
      ensures Wrote(m, prefix, delimiter, old(result), result)
      decreases m
    {
      var left: set<string> := m.entries.Keys;
      ghost var part: map<string, Tree> := map[];
      NothingWritten(prefix, delimiter, result);
      while left != {}
        invariant left <= m.entries.Keys && forall k :: k in part <==> k in m.entries && k !in left
        invariant forall k :: k in part ==> part[k] == m.entries[k]
        invariant Wrote(Map(part), prefix, delimiter, old(result), result)
      {
        var k := AnyOf(left);
        left := left - {k};
        var v := m.entries[k];
        ghost var middle := result;
        var key := k;
        if prefix != "" {
          key := prefix + delimiter + k;
        }
        if v.Map? {
          FlattenHelper(v, key, delimiter);
        } else {
          LeafWritten(v.value, key, delimiter, result);
          result := result[key := v.value];
        }
        EntryWritten(part, k, v, prefix, delimiter, old(result), middle, result);
        part := part[k := v];
      }
      assert part == m.entries;
    }
  }

  method Flatten(m: Tree, delimiter: string) returns (flat: map<string, int>)
    requires m.Map?
    ensures IsFlat(m, delimiter, flat)
  {
    var flattener := new Flattener();
    flattener.FlattenHelper(m, "", delimiter);
    flat := flattener.result;
  }
}
