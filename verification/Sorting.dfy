/** Sorting by insertion, for any order that compares every two elements and is transitive; it is stable. */
module Sorting {

  /** The order may hold both ways between different elements. */
  ghost predicate IsOrder<T(!new)>(leq: (T, T) -> bool) {
    && (forall a, b :: leq(a, b) || leq(b, a))
    && (forall a, b, c {:trigger leq(a, b), leq(b, c)} :: leq(a, b) && leq(b, c) ==> leq(a, c))
  }

  predicate SortedBy<T>(leq: (T, T) -> bool, s: seq<T>) {
    forall i, j :: 0 <= i < j < |s| ==> leq(s[i], s[j])
  }

  function Insert<T>(leq: (T, T) -> bool, s: seq<T>, x: T): seq<T> {
    if s == [] || leq(s[|s| - 1], x) then s + [x] else Insert(leq, s[..|s| - 1], x) + [s[|s| - 1]]
  }

  function Sort<T>(leq: (T, T) -> bool, s: seq<T>): seq<T> {
    if s == [] then [] else Insert(leq, Sort(leq, s[..|s| - 1]), s[|s| - 1])
  }

  lemma LastIsLast<T(!new)>(leq: (T, T) -> bool, s: seq<T>, x: T)
    requires IsOrder(leq) && SortedBy(leq, s) && (s == [] || leq(s[|s| - 1], x))
    ensures forall y :: y in s ==> leq(y, x)
  {
    forall y | y in s ensures leq(y, x) {
      var i :| 0 <= i < |s| && s[i] == y;
      assert i < |s| - 1 ==> leq(s[i], s[|s| - 1]);
    }
  }

  lemma AppendSorted<T>(leq: (T, T) -> bool, s: seq<T>, x: T)
    requires SortedBy(leq, s) && forall y :: y in s ==> leq(y, x)
    ensures SortedBy(leq, s + [x])
  {
    forall i | 0 <= i < |s| ensures leq(s[i], x) {
      assert s[i] in s;
    }
  }

  lemma {:induction false} InsertPermutes<T>(leq: (T, T) -> bool, s: seq<T>, x: T)
    ensures multiset(Insert(leq, s, x)) == multiset(s) + multiset{x}
    ensures |Insert(leq, s, x)| == |s| + 1
    ensures forall y :: y in Insert(leq, s, x) <==> y in s || y == x
  {
    if s != [] && !leq(s[|s| - 1], x) {
      var n := |s| - 1;
      InsertPermutes(leq, s[..n], x);
      assert s == s[..n] + [s[n]];
    }
  }

  lemma {:induction false} InsertSorts<T(!new)>(leq: (T, T) -> bool, s: seq<T>, x: T)
    requires IsOrder(leq) && SortedBy(leq, s)
    ensures SortedBy(leq, Insert(leq, s, x))
  {
    if s == [] || leq(s[|s| - 1], x) {
      LastIsLast(leq, s, x);
      AppendSorted(leq, s, x);
    } else {
      var n := |s| - 1;
      InsertSorts(leq, s[..n], x);
      InsertPermutes(leq, s[..n], x);
      LastIsLast(leq, s[..n], s[n]);
      AppendSorted(leq, Insert(leq, s[..n], x), s[n]);
    }
  }

  /** Nothing is lost or added. */
  lemma {:induction false} SortPermutes<T>(leq: (T, T) -> bool, s: seq<T>)
    ensures multiset(Sort(leq, s)) == multiset(s) && |Sort(leq, s)| == |s|
    ensures forall y :: y in Sort(leq, s) <==> y in s
  {
    if s != [] {
      var n := |s| - 1;
      SortPermutes(leq, s[..n]);
      InsertPermutes(leq, Sort(leq, s[..n]), s[n]);
      assert s == s[..n] + [s[n]];
    }
  }

  lemma {:induction false} SortSorts<T(!new)>(leq: (T, T) -> bool, s: seq<T>)
    requires IsOrder(leq)
    ensures SortedBy(leq, Sort(leq, s))
  {
    if s != [] {
      SortSorts(leq, s[..|s| - 1]);
      InsertSorts(leq, Sort(leq, s[..|s| - 1]), s[|s| - 1]);
    }
  }

  lemma {:induction false} SortedStays<T>(leq: (T, T) -> bool, s: seq<T>)
    requires SortedBy(leq, s)
    ensures Sort(leq, s) == s
  {
    if s != [] {
      var n := |s| - 1;
      SortedStays(leq, s[..n]);
      assert n > 0 ==> leq(s[n - 1], s[n]);
      assert s == s[..n] + [s[n]];
    }
  }

  lemma {:induction false} InsertAfter<T>(leq: (T, T) -> bool, a: seq<T>, b: seq<T>, x: T)
    requires forall i :: 0 <= i < |a| ==> leq(a[i], x)
    ensures Insert(leq, a + b, x) == a + Insert(leq, b, x)
  {
    if b == [] {
      assert a + b == a;
    } else {
      var n := |b| - 1;
      assert (a + b)[..|a + b| - 1] == a + b[..n];
      InsertAfter(leq, a, b[..n], x);
    }
  }

  predicate AllBelow<T>(leq: (T, T) -> bool, a: seq<T>, b: seq<T>) {
    forall i, j :: 0 <= i < |a| && 0 <= j < |b| ==> leq(a[i], b[j])
  }

  /** What comes before all the rest is sorted by itself. */
  lemma {:induction false} SortConcat<T>(leq: (T, T) -> bool, a: seq<T>, b: seq<T>)
    requires AllBelow(leq, a, b)
    ensures Sort(leq, a + b) == Sort(leq, a) + Sort(leq, b)
  {
    if b == [] {
      assert a + b == a;
    } else {
      var n := |b| - 1;
      assert (a + b)[..|a + b| - 1] == a + b[..n];
      SortConcat(leq, a, b[..n]);
      SortPermutes(leq, a);
      BelowAll(leq, a, Sort(leq, a), b[n]);
      InsertAfter(leq, Sort(leq, a), Sort(leq, b[..n]), b[n]);
    }
  }

  lemma BelowAll<T>(leq: (T, T) -> bool, a: seq<T>, s: seq<T>, x: T)
    requires multiset(s) == multiset(a) && forall i :: 0 <= i < |a| ==> leq(a[i], x)
    ensures forall i :: 0 <= i < |s| ==> leq(s[i], x)
  {
    forall i | 0 <= i < |s| ensures leq(s[i], x) {
      assert s[i] in multiset(s);
      assert s[i] in multiset(a);
    }
  }

  // ---- Counting -----------------------------------------------------------------------------------------

  lemma CountedTwice<T>(s: seq<T>, i: nat, j: nat)
    requires i < j < |s| && s[i] == s[j]
    ensures multiset(s)[s[i]] >= 2
  {
    assert s == s[..j] + [s[j]] + s[j + 1..];
    assert s[..j][i] == s[j];
    assert s[j] in multiset(s[..j]);
  }

  predicate PairsOf<T>(apart: (T, T) -> bool, s: seq<T>) {
    forall i, j :: 0 <= i < j < |s| ==> apart(s[i], s[j])
  }

  /** What holds of every two elements holds of them in every order. */
  lemma PairsPermute<T(!new)>(apart: (T, T) -> bool, s: seq<T>, t: seq<T>)
    requires forall a, b {:trigger apart(a, b)} :: apart(a, b) ==> apart(b, a)
    requires multiset(t) == multiset(s) && PairsOf(apart, s)
    ensures PairsOf(apart, t)
  {
    forall i, j | 0 <= i < j < |t| ensures apart(t[i], t[j]) {
      assert t[i] in multiset(t) && t[j] in multiset(t);
      assert t[i] in multiset(s) && t[j] in multiset(s);
      var a :| 0 <= a < |s| && s[a] == t[i];
      var b :| 0 <= b < |s| && s[b] == t[j];
      if a == b {
        CountedTwice(t, i, j);
        b := OtherCopy(s, a);
      }
      assert if a < b then apart(s[a], s[b]) else apart(s[b], s[a]);
    }
  }

  lemma OtherCopy<T>(s: seq<T>, a: nat) returns (b: nat)
    requires a < |s| && multiset(s)[s[a]] >= 2
    ensures b < |s| && b != a && s[b] == s[a]
  {
    assert s == s[..a] + [s[a]] + s[a + 1..];
    if s[a] in s[..a] {
      b :| b < a && s[..a][b] == s[a];
    } else {
      assert multiset(s) == multiset(s[..a]) + multiset{s[a]} + multiset(s[a + 1..]);
      assert s[a] in multiset(s[a + 1..]);
      var k :| 0 <= k < |s| - a - 1 && s[a + 1..][k] == s[a];
      b := a + 1 + k;
    }
  }
}
