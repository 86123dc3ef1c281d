/** Stable sorting by insertion, why its result is determined, and the order of strings. */
module Sorting {
  ghost predicate TotalPreorder<T(!new)>(le: (T, T) -> bool) {
    && (forall a, b :: le(a, b) || le(b, a))
    && (forall a, b, c :: le(a, b) && le(b, c) ==> le(a, c))
  }

  ghost predicate SortedBy<T>(le: (T, T) -> bool, s: seq<T>) {
    forall i, j :: 0 <= i < j < |s| ==> le(s[i], s[j])
  }

  predicate Ties<T>(le: (T, T) -> bool, a: T, b: T) {
    le(a, b) && le(b, a)
  }

  /** The elements that rank with `x`, in the order of the sequence. */
  function Tied<T>(le: (T, T) -> bool, s: seq<T>, x: T): seq<T> {
    if s == [] then []
    else
      var before, y := Tied(le, s[..|s| - 1], x), s[|s| - 1];
      if Ties(le, y, x) then before + [y] else before
  }

  /** Elements that rank alike are the same and stand in the same order. */
  ghost predicate SameTies<T(!new)>(le: (T, T) -> bool, s: seq<T>, t: seq<T>) {
    forall x :: Tied(le, s, x) == Tied(le, t, x)
  }

  ghost predicate StableSort<T(!new)>(le: (T, T) -> bool, s: seq<T>, out: seq<T>) {
    SortedBy(le, out) && SameTies(le, out, s)
  }

  // ---------- insertion ----------

  lemma {:induction false} TiedConcat<T>(le: (T, T) -> bool, a: seq<T>, b: seq<T>, x: T)
    ensures Tied(le, a + b, x) == Tied(le, a, x) + Tied(le, b, x)
  {
    if b == [] {
      assert a + b == a;
    } else {
      TiedConcat(le, a, b[..|b| - 1], x);
      assert (a + b)[..|a + b| - 1] == a + b[..|b| - 1];
    }
  }

  lemma {:induction false} NoneTied<T>(le: (T, T) -> bool, s: seq<T>, x: T)
    requires forall i :: 0 <= i < |s| ==> !Ties(le, s[i], x)
    ensures Tied(le, s, x) == []
  {
    if s != [] {
      NoneTied(le, s[..|s| - 1], x);
    }
  }

  lemma OneUntied<T(!new)>(le: (T, T) -> bool, s: seq<T>, y: T, x: T)
    requires TotalPreorder(le) && forall j :: 0 <= j < |s| ==> !le(s[j], y)
    ensures Tied(le, s, x) == [] || Tied(le, [y], x) == []
  {
    if Ties(le, y, x) {
      NoneTied(le, s, x);
    } else {
      NoneTied(le, [y], x);
    }
  }

  lemma InsertTies<T(!new)>(le: (T, T) -> bool, a: seq<T>, b: seq<T>, y: T)
    requires TotalPreorder(le) && forall j :: 0 <= j < |b| ==> !le(b[j], y)
    ensures SameTies(le, a + [y] + b, a + b + [y])
  {
    forall x ensures Tied(le, a + [y] + b, x) == Tied(le, a + b + [y], x) {
      TiedConcat(le, a + [y], b, x);
      TiedConcat(le, a, [y], x);
      TiedConcat(le, a + b, [y], x);
      TiedConcat(le, a, b, x);
      OneUntied(le, b, y, x);
    }
  }

  lemma InsertSorted<T(!new)>(le: (T, T) -> bool, s: seq<T>, n: nat, y: T)
    requires TotalPreorder(le) && SortedBy(le, s) && n <= |s|
    requires n > 0 ==> le(s[n - 1], y)
    requires forall j :: n <= j < |s| ==> !le(s[j], y)
    ensures SortedBy(le, s[..n] + [y] + s[n..])
  {
    var out := s[..n] + [y] + s[n..];
    assert forall i :: 0 <= i < n ==> le(s[i], y);
    assert forall i :: 0 <= i < |out| ==> out[i] == if i < n then s[i] else if i == n then y else s[i - 1];
  }

  lemma InsertKeepsElements<T>(s: seq<T>, n: nat, y: T)
    requires n <= |s|
    ensures multiset(s[..n] + [y] + s[n..]) == multiset(s + [y])
  {
    assert s == s[..n] + s[n..];
  }

  lemma InsertStable<T(!new)>(le: (T, T) -> bool, s: seq<T>, n: nat, y: T)
    requires TotalPreorder(le) && SortedBy(le, s) && n <= |s|
    requires n > 0 ==> le(s[n - 1], y)
    requires forall j :: n <= j < |s| ==> !le(s[j], y)
    ensures StableSort(le, s + [y], s[..n] + [y] + s[n..])
  {
    var a, b := s[..n], s[n..];
    InsertSorted(le, s, n, y);
    assert forall j :: 0 <= j < |b| ==> b[j] == s[n + j];
    InsertTies(le, a, b, y);
    assert a + b == s;
  }

  /** After the elements that do not rank above it. */
  method Insert<T(!new)>(le: (T, T) -> bool, s: seq<T>, y: T) returns (out: seq<T>)
    requires TotalPreorder(le) && SortedBy(le, s)
    ensures StableSort(le, s + [y], out) && multiset(out) == multiset(s + [y])
  {
    var n := |s|;
    while n > 0 && !le(s[n - 1], y)
      invariant 0 <= n <= |s|
      invariant forall j :: n <= j < |s| ==> !le(s[j], y)
    {
      n := n - 1;
    }
    InsertStable(le, s, n, y);
    InsertKeepsElements(s, n, y);
    out := s[..n] + [y] + s[n..];
  }

  method Sort<T(!new)>(le: (T, T) -> bool, s: seq<T>) returns (out: seq<T>)
    requires TotalPreorder(le)
    ensures StableSort(le, s, out) && multiset(out) == multiset(s)
  {
    out := [];
    for i := 0 to |s|
      invariant StableSort(le, s[..i], out) && multiset(out) == multiset(s[..i])
    {
      ghost var before := out;
      out := Insert(le, out, s[i]);
      assert s[..i + 1] == s[..i] + [s[i]];
      forall x ensures Tied(le, out, x) == Tied(le, s[..i + 1], x) {
        TiedConcat(le, before, [s[i]], x);
        TiedConcat(le, s[..i], [s[i]], x);
      }
    }
    assert s[..|s|] == s;
  }

  // ---------- uniqueness ----------

  lemma {:induction false} TiedMembers<T>(le: (T, T) -> bool, s: seq<T>, x: T, y: T)
    ensures y in Tied(le, s, x) <==> y in s && Ties(le, y, x)
  {
    if s != [] {
      TiedMembers(le, s[..|s| - 1], x, y);
      assert s == s[..|s| - 1] + [s[|s| - 1]];
    }
  }

  /** There is only one stable sort of a sequence. */
  lemma {:induction false} StableSortUnique<T(!new)>(le: (T, T) -> bool, s: seq<T>, t: seq<T>)
    requires TotalPreorder(le) && SortedBy(le, s) && SortedBy(le, t) && SameTies(le, s, t)
    ensures s == t
  {
    SameMembers(le, s, t);
    if s != [] {
      SameLast(le, s, t);
      InitTies(le, s, t);
      StableSortUnique(le, s[..|s| - 1], t[..|t| - 1]);
      assert s == s[..|s| - 1] + [s[|s| - 1]];
    }
  }

  lemma SameMembers<T(!new)>(le: (T, T) -> bool, s: seq<T>, t: seq<T>)
    requires TotalPreorder(le) && SameTies(le, s, t)
    ensures forall x :: x in s <==> x in t
    ensures s == [] <==> t == []
  {
    forall x ensures x in s <==> x in t {
      assert Tied(le, s, x) == Tied(le, t, x);
      TiedMembers(le, s, x, x);
      TiedMembers(le, t, x, x);
    }
    assert s != [] ==> s[0] in s;
    assert t != [] ==> t[0] in t;
  }

  lemma SameLast<T(!new)>(le: (T, T) -> bool, s: seq<T>, t: seq<T>)
    requires TotalPreorder(le) && SortedBy(le, s) && SortedBy(le, t) && SameTies(le, s, t)
    requires s != [] && t != []
    ensures s[|s| - 1] == t[|t| - 1]
  {
    var x, y := s[|s| - 1], t[|t| - 1];
    SameMembers(le, s, t);
    LastIsGreatest(le, s, y);
    LastIsGreatest(le, t, x);
    assert Tied(le, s, x) == Tied(le, t, x);
    assert Tied(le, s, x)[|Tied(le, s, x)| - 1] == x;
    assert Tied(le, t, x)[|Tied(le, t, x)| - 1] == y;
  }

  lemma LastIsGreatest<T(!new)>(le: (T, T) -> bool, s: seq<T>, x: T)
    requires TotalPreorder(le) && SortedBy(le, s) && x in s
    ensures le(x, s[|s| - 1])
  {
  }

  lemma InitTies<T(!new)>(le: (T, T) -> bool, s: seq<T>, t: seq<T>)
    requires SameTies(le, s, t) && s != [] && t != [] && s[|s| - 1] == t[|t| - 1]
    ensures SameTies(le, s[..|s| - 1], t[..|t| - 1])
  {
    var s', t' := s[..|s| - 1], t[..|t| - 1];
    forall x ensures Tied(le, s', x) == Tied(le, t', x) {
      var a, b := Tied(le, s', x), Tied(le, t', x);
      assert Tied(le, s, x) == Tied(le, t, x);
      assert (a + [s[|s| - 1]])[..|a|] == a && (b + [s[|s| - 1]])[..|b|] == b;
    }
  }

  // ---------- strings ----------

  /** Lexicographic order of strings by code point. */
  predicate LexLe(a: string, b: string) {
    if a == [] then true
    else if b == [] then false
    else if a[0] == b[0] then LexLe(a[1..], b[1..])
    else a[0] < b[0]
  }

  lemma {:induction false} LexTotal(a: string, b: string)
    ensures LexLe(a, b) || LexLe(b, a)
    ensures LexLe(a, b) && LexLe(b, a) ==> a == b
  {
    if a != [] && b != [] && a[0] == b[0] {
      LexTotal(a[1..], b[1..]);
      assert a == [a[0]] + a[1..] && b == [b[0]] + b[1..];
    }
  }

  lemma {:induction false} LexTransitive(a: string, b: string, c: string)
    requires LexLe(a, b) && LexLe(b, c)
    ensures LexLe(a, c)
  {
    if a != [] && a[0] == b[0] == c[0] {
      LexTransitive(a[1..], b[1..], c[1..]);
    }
  }

  /** A prefix comes first; otherwise the first difference decides. */
  ghost predicate StringLe(a: string, b: string) {
    a <= b || exists k: nat :: k < |a| && k < |b| && a[..k] == b[..k] && a[k] < b[k]
  }

  lemma {:induction false} LexMeans(a: string, b: string)
    ensures LexLe(a, b) <==> StringLe(a, b)
  {
    if a != [] && b != [] && a[0] == b[0] {
      LexMeans(a[1..], b[1..]);
      HeadsAgree(a, b);
    } else if a != [] && b != [] {
      assert a[..0] == b[..0];
      assert forall k: nat :: 0 < k < |a| && k < |b| ==> a[..k][0] == a[0] && b[..k][0] == b[0];
    }
  }

  lemma HeadsAgree(a: string, b: string)
    requires a != [] && b != [] && a[0] == b[0]
    ensures StringLe(a, b) <==> StringLe(a[1..], b[1..])
  {
    assert a == [a[0]] + a[1..] && b == [b[0]] + b[1..];
    if k: nat :| k < |a| && k < |b| && a[..k] == b[..k] && a[k] < b[k] {
      assert k > 0 && a[1..][..k - 1] == a[..k][1..] && b[1..][..k - 1] == b[..k][1..];
      assert a[1..][k - 1] < b[1..][k - 1];
    }
    if k: nat :| k < |a[1..]| && k < |b[1..]| && a[1..][..k] == b[1..][..k] && a[1..][k] < b[1..][k] {
      assert a[..k + 1] == [a[0]] + a[1..][..k] && b[..k + 1] == [b[0]] + b[1..][..k];
      assert a[k + 1] < b[k + 1];
    }
  }
}
