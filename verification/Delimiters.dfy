/** Splitting a string at a delimiter, and joining the parts again. */
module Delimiters {

  /** strings.Split: at the leftmost occurrences that do not overlap; an empty delimiter separates the characters. */
  function Split(s: string, d: string): (parts: seq<string>)
    ensures d != "" ==> |parts| > 0
  {
    if d == "" then seq(|s|, i requires 0 <= i < |s| => [s[i]])
    else if |s| < |d| then [s]
    else if d <= s then [""] + Split(s[|d|..], d)
    else
      var rest := Split(s[1..], d);
      [[s[0]] + rest[0]] + rest[1..]
  }

  function Join(parts: seq<string>, d: string): string
  {
    if |parts| == 0 then ""
    else if |parts| == 1 then parts[0]
    else parts[0] + d + Join(parts[1..], d)
  }

  lemma {:induction false} JoinFirst(c: char, parts: seq<string>, d: string)
    requires |parts| > 0
    ensures Join([[c] + parts[0]] + parts[1..], d) == [c] + Join(parts, d)
  {
    var more := [[c] + parts[0]] + parts[1..];
    assert more[1..] == parts[1..];
    if |parts| > 1 {
      assert [c] + parts[0] + d + Join(parts[1..], d) == [c] + (parts[0] + d + Join(parts[1..], d));
    }
  }

  lemma SplitChars(s: string)
    requires s != ""
    ensures Split(s, "") == [[s[0]]] + Split(s[1..], "")
  {}

  /** Joining undoes splitting, so different strings have different parts. */
  lemma {:induction false} JoinSplit(s: string, d: string)
    ensures Join(Split(s, d), d) == s
    decreases |s|
  {
    if d == "" {
      if s != "" {
        JoinSplit(s[1..], d);
        SplitChars(s);
        JoinCons([s[0]], Split(s[1..], d));
        assert s == [s[0]] + s[1..];
      }
    } else if |s| < |d| {
    } else if d <= s {
      JoinSplit(s[|d|..], d);
      var rest := Split(s[|d|..], d);
      assert ([""] + rest)[1..] == rest;
      assert s == d + s[|d|..] && "" + d + s[|d|..] == d + s[|d|..];
    } else {
      JoinSplit(s[1..], d);
      JoinFirst(s[0], Split(s[1..], d), d);
      assert s == [s[0]] + s[1..];
    }
  }

  /** With an empty delimiter joining is concatenation. */
  lemma JoinCons(k: string, rest: seq<string>)
    ensures Join([k] + rest, "") == k + Join(rest, "")
  {
    assert ([k] + rest)[1..] == rest;
    assert k + "" == k;
  }

  lemma SplitInjective(s: string, r: string, d: string)
    requires Split(s, d) == Split(r, d)
    ensures s == r
  {
    JoinSplit(s, d);
    JoinSplit(r, d);
  }

  predicate At(d: string, s: string, i: int)
  {
    0 <= i <= |s| - |d| && s[i..i + |d|] == d
  }

  predicate Occurs(d: string, k: string)
  {
    exists i :: 0 <= i <= |k| && At(d, k, i)
  }

  /** Where k is followed by a delimiter, none starts before the end of k. */
  predicate EndsAtDelimiter(k: string, d: string)
  {
    forall i :: 0 <= i < |k| ==> !At(d, k + d, i)
  }

  /** Splitting what was joined gives the parts back exactly if this holds: no delimiter starts inside a part, or each
      part is one character if the delimiter is empty. */
  predicate Splittable(parts: seq<string>, d: string)
  {
    if d == "" then forall i :: 0 <= i < |parts| ==> |parts[i]| == 1
    else
      && |parts| > 0 && !Occurs(d, parts[|parts| - 1])
      && forall i :: 0 <= i < |parts| - 1 ==> EndsAtDelimiter(parts[i], d)
  }

  lemma AtTail(d: string, s: string, i: int)
    requires |s| > 0 && i >= 0
    ensures At(d, s[1..], i) <==> At(d, s, i + 1)
  {
    if i <= |s[1..]| - |d| { assert s[1..][i..i + |d|] == s[i + 1..i + 1 + |d|]; }
  }

  lemma EndsAtTail(k: string, d: string)
    requires |k| > 0 && d != ""
    ensures EndsAtDelimiter(k, d) <==> !At(d, k + d, 0) && EndsAtDelimiter(k[1..], d)
  {
    assert (k + d)[1..] == k[1..] + d;
    forall i | 0 <= i < |k| - 1
      ensures At(d, k[1..] + d, i) <==> At(d, k + d, i + 1)
    {
      AtTail(d, k + d, i);
    }
    if !At(d, k + d, 0) && EndsAtDelimiter(k[1..], d) {
      forall i | 0 <= i < |k|
        ensures !At(d, k + d, i)
      {
        if i > 0 { assert !At(d, k[1..] + d, i - 1); }
      }
    }
  }

  /** The first part of what splitting k + d + s gives is k exactly if no delimiter starts earlier. */
  ghost predicate FirstIs(k: string, s: string, d: string)
    requires d != ""
  {
    && (Split(k + d + s, d)[0] == k <==> EndsAtDelimiter(k, d))
    && (EndsAtDelimiter(k, d) ==> Split(k + d + s, d) == [k] + Split(s, d))
  }

  lemma {:induction false} SplitFirst(k: string, s: string, d: string)
    requires d != ""
    ensures FirstIs(k, s, d)
    decreases |k|
  {
    if k == "" {
      SplitAtOnce(s, d);
    } else if d <= k + d + s {
      SplitHere(k, s, d);
    } else {
      SplitFirst(k[1..], s, d);
      SplitLater(k, s, d);
    }
  }

  lemma SplitLater(k: string, s: string, d: string)
    requires d != "" && k != "" && !(d <= k + d + s) && FirstIs(k[1..], s, d)
    ensures FirstIs(k, s, d)
  {
    var all := k + d + s;
    assert all[1..] == k[1..] + d + s && all[0] == k[0];
    NoneHere(k, s, d);
    SplitCons(all, d);
    ConsFirst(k, Split(all[1..], d), Split(s, d));
  }

  lemma SplitAtOnce(s: string, d: string)
    requires d != ""
    ensures FirstIs("", s, d)
  {
    assert "" + d + s == d + s;
    assert (d + s)[|d|..] == s && (d + s)[..|d|] == d;
  }

  lemma SplitHere(k: string, s: string, d: string)
    requires d != "" && k != "" && d <= k + d + s
    ensures Split(k + d + s, d)[0] == "" && !EndsAtDelimiter(k, d)
  {
    var all := k + d + s;
    assert all[..|d|] == d && all[..|d|] == (k + d)[0..0 + |d|];
    assert At(d, k + d, 0);
  }

  lemma NoneHere(k: string, s: string, d: string)
    requires d != "" && k != "" && !(d <= k + d + s)
    ensures EndsAtDelimiter(k, d) <==> EndsAtDelimiter(k[1..], d)
  {
    assert (k + d + s)[..|d|] == (k + d)[0..0 + |d|];
    EndsAtTail(k, d);
  }

  lemma SplitCons(all: string, d: string)
    requires d != "" && |all| >= |d| && !(d <= all)
    ensures Split(all, d) == [[all[0]] + Split(all[1..], d)[0]] + Split(all[1..], d)[1..]
  {}

  /** Putting the first character of k back before the parts of the rest. */
  lemma ConsFirst(k: string, rest: seq<string>, tail: seq<string>)
    requires k != "" && |rest| > 0
    ensures ([[k[0]] + rest[0]] + rest[1..])[0] == k <==> rest[0] == k[1..]
    ensures rest == [k[1..]] + tail ==> [[k[0]] + rest[0]] + rest[1..] == [k] + tail
  {
    assert k == [k[0]] + k[1..];
    assert ([k[0]] + rest[0])[1..] == rest[0];
  }

  lemma OccursTail(d: string, k: string)
    requires d != "" && |k| >= |d|
    ensures Occurs(d, k) <==> At(d, k, 0) || Occurs(d, k[1..])
  {
    if Occurs(d, k[1..]) {
      var i :| 0 <= i <= |k[1..]| && At(d, k[1..], i);
      AtTail(d, k, i);
    }
    if Occurs(d, k) {
      var i :| 0 <= i <= |k| && At(d, k, i);
      if i > 0 { AtTail(d, k, i - 1); }
    }
  }

  lemma {:induction false} SplitLast(k: string, d: string)
    requires d != ""
    ensures Split(k, d) == [k] <==> !Occurs(d, k)
    decreases |k|
  {
    if |k| >= |d| {
      OccursTail(d, k);
      assert d <= k <==> At(d, k, 0);
      if d <= k {
        assert k[0..0 + |d|] == d;
        assert |Split(k, d)| > 1;
      } else {
        SplitLast(k[1..], d);
        var rest := Split(k[1..], d);
        assert k == [k[0]] + k[1..];
        assert rest == [k[1..]] <==> Split(k, d) == [k] by {
          if Split(k, d) == [k] {
            assert ([[k[0]] + rest[0]] + rest[1..])[0] == k && |rest| == 1;
            assert rest[0] == ([k[0]] + rest[0])[1..];
          }
        }
      }
    }
  }

  lemma SplittableTail(parts: seq<string>, d: string)
    requires |parts| > 1 && d != ""
    ensures Splittable(parts, d) <==> EndsAtDelimiter(parts[0], d) && Splittable(parts[1..], d)
  {
    var rest := parts[1..];
    assert rest[|rest| - 1] == parts[|parts| - 1];
    if EndsAtDelimiter(parts[0], d) && Splittable(rest, d) {
      forall i | 0 <= i < |parts| - 1
        ensures EndsAtDelimiter(parts[i], d)
      {
        if i > 0 { assert rest[i - 1] == parts[i]; }
      }
    }
    if Splittable(parts, d) {
      forall i | 0 <= i < |rest| - 1
        ensures EndsAtDelimiter(rest[i], d)
      {
        assert rest[i] == parts[i + 1];
      }
    }
  }

  lemma {:induction false} CharsJoin(parts: seq<string>)
    ensures Split(Join(parts, ""), "") == parts <==> Splittable(parts, "")
  {
    if |parts| > 0 {
      var k, rest := parts[0], parts[1..];
      assert parts == [k] + rest;
      CharsJoin(rest);
      JoinCons(k, rest);
      if |k| == 1 {
        SplitChars(k + Join(rest, ""));
        assert (k + Join(rest, ""))[1..] == Join(rest, "") && [k[0]] == k;
        assert ([k] + Split(Join(rest, ""), ""))[1..] == Split(Join(rest, ""), "");
      }
    }
  }

  /** Splitting undoes joining exactly for these parts. */
  lemma {:induction false} SplitJoin(parts: seq<string>, d: string)
    requires |parts| > 0
    ensures Split(Join(parts, d), d) == parts <==> Splittable(parts, d)
    decreases |parts|
  {
    if d == "" {
      CharsJoin(parts);
    } else if |parts| == 1 {
      assert parts == [parts[0]];
      SplitLast(parts[0], d);
    } else {
      var rest := parts[1..];
      assert parts == [parts[0]] + rest;
      SplitJoin(rest, d);
      SplitFirst(parts[0], Join(rest, d), d);
      SplittableTail(parts, d);
      assert EndsAtDelimiter(parts[0], d) ==>
             (Split(Join(parts, d), d) == parts <==> Split(Join(rest, d), d) == rest) by {
        if EndsAtDelimiter(parts[0], d) {
          assert ([parts[0]] + Split(Join(rest, d), d))[1..] == Split(Join(rest, d), d);
        }
      }
    }
  }

  /** Keys that share no character with the delimiter are always recovered. */
  lemma ForeignKeys(parts: seq<string>, d: string)
    requires d != "" && |parts| > 0
    requires forall i, c :: 0 <= i < |parts| && c in parts[i] ==> c !in d
    ensures Splittable(parts, d)
  {
    forall i | 0 <= i < |parts|
      ensures EndsAtDelimiter(parts[i], d) && !Occurs(d, parts[i])
    {
      var k := parts[i];
      forall j | 0 <= j < |k|
        ensures !At(d, k + d, j) && !At(d, k, j)
      {
        assert k[j] in k && d[0] in d;
      }
    }
  }
}
