/**
 The vocabulary built from the knowledge base: the set of all entries'
 keywords, sorted. The vocabulary fixes the coordinate system of every term
 vector.
 */
module Vocabulary {
  import opened Text
  import opened Faq

  /** Each element precedes the next in the sort order, so none is repeated. */
  predicate StrictlySorted(v: seq<string>) {
    forall i, j :: 0 <= i < j < |v| ==> Precedes(v[i], v[j])
  }

  lemma StrictlySortedIsDistinct(v: seq<string>)
    requires StrictlySorted(v)
    ensures Distinct(v)
  {
    forall i, j | 0 <= i < j < |v| ensures v[i] != v[j] {
      PrecedesIrreflexive(v[i]);
    }
  }

  /** Adds `w` to a sorted, duplicate-free sequence, keeping both properties. */
  function Insert(v: seq<string>, w: string): (r: seq<string>)
    requires StrictlySorted(v)
    ensures StrictlySorted(r)
    ensures forall x :: x in r <==> x in v || x == w
  {
    if |v| == 0 then [w]
    else if v[0] == w then v
    else if Precedes(w, v[0]) then
      assert forall j :: 0 < j < |v| ==> Precedes(w, v[j]) by {
        forall j | 0 < j < |v| ensures Precedes(w, v[j]) {
          PrecedesTransitive(w, v[0], v[j]);
        }
      }
      [w] + v
    else
      PrecedesTotal(w, v[0]);
      var r := [v[0]] + Insert(v[1..], w);
      assert forall j :: 0 < j < |r| ==> Precedes(v[0], r[j]) by {
        forall j | 0 < j < |r| ensures Precedes(v[0], r[j]) {
          assert r[j] in v[1..] || r[j] == w;
        }
      }
      r
  }

  /**
   `Array.from(new Set(xs)).sort()`: the distinct elements of `xs` in sort
   order, built by inserting them one at a time.
   */
  function SortDistinct(xs: seq<string>): (r: seq<string>)
    ensures StrictlySorted(r)
    ensures forall x :: x in r <==> x in xs
  {
    if |xs| == 0 then []
    else Insert(SortDistinct(xs[..|xs| - 1]), xs[|xs| - 1])
  }

  /** Two sorted duplicate-free sequences with the same elements are equal. */
  lemma {:induction false} SortedUnique(a: seq<string>, b: seq<string>)
    requires StrictlySorted(a) && StrictlySorted(b)
    requires forall x :: x in a <==> x in b
    ensures a == b
  {
    SameLength(a, b);
    if |a| > 0 {
      SameHead(a, b);
      SameTail(a, b);
      SortedUnique(a[1..], b[1..]);
      assert a == [a[0]] + a[1..] && b == [b[0]] + b[1..];
    }
  }

  lemma SameLength(a: seq<string>, b: seq<string>)
    requires StrictlySorted(a) && StrictlySorted(b)
    requires forall x :: x in a <==> x in b
    ensures |a| == |b|
  {
    StrictlySortedIsDistinct(a);
    StrictlySortedIsDistinct(b);
    DistinctCardinality(a);
    DistinctCardinality(b);
    assert (set x | x in a) == (set x | x in b);
  }

  /** The first element is the least, so both sequences start with it. */
  lemma SameHead(a: seq<string>, b: seq<string>)
    requires StrictlySorted(a) && StrictlySorted(b) && |a| > 0 && |b| > 0
    requires forall x :: x in a <==> x in b
    ensures a[0] == b[0]
  {
    if a[0] != b[0] {
      assert b[0] in a;
      assert a[0] in b;
      var m :| 0 <= m < |a| && a[m] == b[0];
      var k :| 0 <= k < |b| && b[k] == a[0];
      PrecedesAsymmetric(a[0], b[0]);
    }
  }

  lemma SameTail(a: seq<string>, b: seq<string>)
    requires StrictlySorted(a) && StrictlySorted(b) && |a| > 0 && |b| > 0 && a[0] == b[0]
    requires forall x :: x in a <==> x in b
    ensures StrictlySorted(a[1..]) && StrictlySorted(b[1..])
    ensures forall x :: x in a[1..] <==> x in b[1..]
  {
    forall x ensures x in a[1..] <==> x in b[1..] {
      if x in a[1..] {
        var m :| 1 <= m < |a| && a[m] == x;
        PrecedesIrreflexive(a[0]);
        assert x in b && x != b[0];
      }
      if x in b[1..] {
        var m :| 1 <= m < |b| && b[m] == x;
        PrecedesIrreflexive(b[0]);
        assert x in a && x != a[0];
      }
    }
  }

  /** `buildTFIDF`'s vocabulary: every keyword of every entry, once, sorted. */
  function Build(entries: seq<Entry>): (v: seq<string>)
    ensures StrictlySorted(v)
    ensures forall w :: w in v <==> IsKeyword(entries, w)
  {
    SortDistinct(AllKeywords(entries))
  }

  /** The vocabulary depends only on which keywords occur, not on entry or keyword order. */
  lemma BuildIgnoresOrder(entries1: seq<Entry>, entries2: seq<Entry>)
    requires forall w :: IsKeyword(entries1, w) <==> IsKeyword(entries2, w)
    ensures Build(entries1) == Build(entries2)
  {
    SortedUnique(Build(entries1), Build(entries2));
  }

  lemma {:induction false} DistinctCardinality(v: seq<string>)
    requires Distinct(v)
    ensures |set x | x in v| == |v|
  {
    if |v| > 0 {
      var init := v[..|v| - 1];
      DistinctCardinality(init);
      assert (set x | x in v) == (set x | x in init) + {v[|v| - 1]};
      assert v[|v| - 1] !in init;
    }
  }

  /** The vocabulary has exactly one coordinate per distinct keyword. */
  lemma BuildSize(entries: seq<Entry>)
    ensures |Build(entries)| == |set w | w in AllKeywords(entries)|
  {
    var v := Build(entries);
    StrictlySortedIsDistinct(v);
    DistinctCardinality(v);
    assert (set x | x in v) == (set w | w in AllKeywords(entries));
  }
}
