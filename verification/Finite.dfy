/** Sequences without repetition, and how many elements sets and sequences can have. */
module Finite {
  ghost predicate Distinct<T>(s: seq<T>) {
    forall i, j :: 0 <= i < j < |s| ==> s[i] != s[j]
  }

  ghost function Elements<T>(s: seq<T>): set<T> {
    set x | x in s
  }

  lemma SubsetCardinality<T>(a: set<T>, b: set<T>)
    requires a <= b
    ensures |a| <= |b| && (a != b ==> |a| < |b|)
  {
    assert b == a + (b - a);
    assert |a + (b - a)| == |a| + |b - a|;
  }

  lemma {:induction false} DistinctWithin<T>(s: seq<T>, all: set<T>)
    requires Distinct(s) && forall x :: x in s ==> x in all
    ensures |s| <= |all|
  {
    if s != [] {
      var init, last := s[..|s| - 1], s[|s| - 1];
      assert forall x :: x in init ==> x in s && x != last;
      DistinctWithin(init, all - {last});
    }
  }

  lemma {:induction false} Pigeonhole<T>(s: seq<T>, all: set<T>) returns (i: nat, j: nat)
    requires |s| > |all| && forall n :: 0 <= n < |s| ==> s[n] in all
    ensures i < j < |s| && s[i] == s[j]
    decreases |all|
  {
    var last := s[|s| - 1];
    if n :| 0 <= n < |s| - 1 && s[n] == last {
      i, j := n, |s| - 1;
    } else {
      i, j := Pigeonhole(s[..|s| - 1], all - {last});
    }
  }

  lemma {:induction false} DistinctIffCardinality<T>(s: seq<T>)
    ensures |Elements(s)| <= |s|
    ensures Distinct(s) <==> |Elements(s)| == |s|
  {
    if s != [] {
      var init, last := s[..|s| - 1], s[|s| - 1];
      DistinctIffCardinality(init);
      assert s == init + [last];
      assert Elements(s) == Elements(init) + {last};
      if last in init {
        var i :| 0 <= i < |init| && init[i] == last;
        assert s[i] == s[|s| - 1];
        assert Elements(s) == Elements(init);
      } else {
        assert forall i, j :: 0 <= i < j < |init| ==> s[i] == init[i] && s[j] == init[j];
        if Distinct(init) {
          forall i, j | 0 <= i < j < |s| ensures s[i] != s[j] {
            if j == |s| - 1 {
              assert s[i] == init[i] && init[i] in init;
            }
          }
        }
      }
    }
  }

  // ---------- dropping repetitions ----------

  /** The elements of a sequence, each where it occurs first. */
  function FirstOccurrences<T(==)>(s: seq<T>): seq<T> {
    if s == [] then []
    else
      var before, x := FirstOccurrences(s[..|s| - 1]), s[|s| - 1];
      if x in before then before else before + [x]
  }

  ghost predicate FirstAt<T>(s: seq<T>, x: T, i: int) {
    0 <= i < |s| && s[i] == x && x !in s[..i]
  }

  /** Of two elements of `f`, the one that stands first occurs first in `s`. */
  ghost predicate InFirstOrder<T>(s: seq<T>, f: seq<T>) {
    forall a, b, i, j {:trigger FirstAt(s, f[a], i), FirstAt(s, f[b], j)} ::
      0 <= a < b < |f| && FirstAt(s, f[a], i) && FirstAt(s, f[b], j) ==> i < j
  }

  lemma {:induction false} FirstOccurrencesOnce<T>(s: seq<T>)
    ensures Distinct(FirstOccurrences(s))
    ensures forall x :: x in FirstOccurrences(s) <==> x in s
  {
    if s != [] {
      FirstOccurrencesOnce(s[..|s| - 1]);
      assert s == s[..|s| - 1] + [s[|s| - 1]];
    }
  }

  lemma {:induction false} FirstOccurrencesInOrder<T>(s: seq<T>)
    ensures InFirstOrder(s, FirstOccurrences(s))
  {
    if s != [] {
      var init, x := s[..|s| - 1], s[|s| - 1];
      var f := FirstOccurrences(s);
      FirstOccurrencesInOrder(init);
      FirstOccurrencesOnce(init);
      forall a, b, i, j | 0 <= a < b < |f| && FirstAt(s, f[a], i) && FirstAt(s, f[b], j) ensures i < j {
        FirstAtInit(s, f[a], i);
        FirstAtInit(s, f[b], j);
        assert a < |FirstOccurrences(init)| && f[a] in init;
        if b < |FirstOccurrences(init)| {
          assert f[b] in init;
        }
      }
    }
  }

  lemma FirstAtInit<T>(s: seq<T>, x: T, i: int)
    requires FirstAt(s, x, i)
    ensures x in s[..|s| - 1] <==> i < |s| - 1
    ensures i < |s| - 1 ==> FirstAt(s[..|s| - 1], x, i)
  {
    var init := s[..|s| - 1];
    assert i < |init| ==> init[i] == x && init[..i] == s[..i];
    assert i == |init| ==> s[..i] == init;
  }

  lemma {:induction false} HasFirst<T>(s: seq<T>, x: T) returns (i: nat)
    requires x in s
    ensures FirstAt(s, x, i)
  {
    var init := s[..|s| - 1];
    if x in init {
      i := HasFirst(init, x);
      assert init[..i] == s[..i];
    } else {
      i := |s| - 1;
      assert s == init + [s[|s| - 1]];
    }
  }

  lemma LastIsLatest<T>(s: seq<T>, f: seq<T>, x: T) returns (i: nat, j: nat)
    requires InFirstOrder(s, f) && x in f && forall y :: y in f ==> y in s
    ensures FirstAt(s, x, i) && FirstAt(s, f[|f| - 1], j) && i <= j
  {
    i := HasFirst(s, x);
    j := HasFirst(s, f[|f| - 1]);
    var a :| 0 <= a < |f| && f[a] == x;
    if a < |f| - 1 {
      assert FirstAt(s, f[a], i) && FirstAt(s, f[|f| - 1], j);
    }
  }

  lemma SameLastInOrder<T>(s: seq<T>, f: seq<T>, g: seq<T>)
    requires f != [] && g != [] && InFirstOrder(s, f) && InFirstOrder(s, g)
    requires (forall x :: x in f ==> x in s) && (forall x :: x in f <==> x in g)
    ensures f[|f| - 1] == g[|g| - 1]
  {
    var x, y := f[|f| - 1], g[|g| - 1];
    var i, j := LastIsLatest(s, g, x);
    var k, l := LastIsLatest(s, f, y);
  }

  /** Elements without repetition in the order of their first occurrence: there is only one such list. */
  lemma {:induction false} FirstOrderUnique<T(!new)>(s: seq<T>, f: seq<T>, g: seq<T>)
    requires Distinct(f) && Distinct(g) && InFirstOrder(s, f) && InFirstOrder(s, g)
    requires (forall x :: x in f ==> x in s) && (forall x :: x in f <==> x in g)
    ensures f == g
  {
    assert f != [] ==> f[0] in f;
    assert g != [] ==> g[0] in g;
    if f != [] {
      SameLastInOrder(s, f, g);
      var f', g' := f[..|f| - 1], g[..|g| - 1];
      forall x ensures x in f' <==> x in g' {
        InitWithout(f, x);
        InitWithout(g, x);
      }
      FirstOrderUnique(s, f', g');
      assert f == f' + [f[|f| - 1]];
    }
  }

  lemma InitWithout<T>(f: seq<T>, x: T)
    requires Distinct(f) && f != []
    ensures x in f[..|f| - 1] <==> x in f && x != f[|f| - 1]
  {
    assert f == f[..|f| - 1] + [f[|f| - 1]];
  }
}
