/** Sequences without repetition. */
module Sequences {
  predicate NoDup<T(==)>(s: seq<T>) {
    forall i, j :: 0 <= i < j < |s| ==> s[i] != s[j]
  }

  function SetOf<T>(s: seq<T>): set<T> { set x | x in s }

  lemma {:induction false} SetOfSnoc<T>(s: seq<T>)
    requires s != []
    ensures SetOf(s) == SetOf(s[..|s| - 1]) + {s[|s| - 1]}
  {
    assert s == s[..|s| - 1] + [s[|s| - 1]];
  }

  /** The pigeonhole principle: a sequence with as many members as positions repeats none. */
  lemma {:induction false} Pigeonhole<T>(s: seq<T>)
    ensures |SetOf(s)| <= |s|
    ensures AllCounted(s) <==> NoDup(s)
  {
    if s == [] {
      assert SetOf(s) == {};
    } else {
      var init, last := s[..|s| - 1], s[|s| - 1];
      Pigeonhole(init);
      SetOfSnoc(s);
      if last in init {
        assert SetOf(s) == SetOf(init);
        var i :| 0 <= i < |init| && init[i] == last;
        assert s[i] == s[|s| - 1];
      } else {
        assert |SetOf(s)| == |SetOf(init)| + 1;
        assert NoDup(init) ==> NoDup(s);
        assert forall i :: 0 <= i < |init| ==> init[i] == s[i];
      }
    }
  }

  /** No repetition, by counting. */
  predicate AllCounted<T(==)>(s: seq<T>) {
    |SetOf(s)| == |s|
  }

  lemma {:induction false} CountedSnoc<T>(s: seq<T>, x: T)
    ensures AllCounted(s + [x]) <==> AllCounted(s) && x !in SetOf(s)
  {
    var t := s + [x];
    Pigeonhole(s);
    SetOfSnoc(t);
    assert t[..|s|] == s;
    if x in SetOf(s) { assert SetOf(t) == SetOf(s); }
  }

  lemma {:induction false} CountOfNoDup<T>(s: seq<T>, x: T)
    requires NoDup(s)
    ensures multiset(s)[x] == if x in s then 1 else 0
  {
    if s != [] {
      var init, last := s[..|s| - 1], s[|s| - 1];
      CountOfNoDup(init, x);
      assert s == init + [last];
    }
  }

  lemma {:induction false} SameMembers<T>(a: seq<T>, b: seq<T>)
    requires NoDup(a) && NoDup(b) && forall x :: x in a <==> x in b
    ensures multiset(a) == multiset(b)
  {
    forall x: T ensures multiset(a)[x] == multiset(b)[x] {
      CountOfNoDup(a, x);
      CountOfNoDup(b, x);
    }
  }

  lemma {:induction false} TwoPlaces<T>(s: seq<T>, i: nat, j: nat)
    requires i < j < |s| && s[i] == s[j]
    ensures multiset(s)[s[i]] >= 2
  {
    assert s == s[..i] + [s[i]] + s[i + 1..j] + [s[j]] + s[j + 1..];
  }

  lemma {:induction false} PermutationKeepsNoDup<T>(a: seq<T>, b: seq<T>)
    requires multiset(a) == multiset(b) && NoDup(b)
    ensures NoDup(a) && |a| == |b| && forall x :: x in a <==> x in b
  {
    forall i, j | 0 <= i < j < |a| ensures a[i] != a[j] {
      if a[i] == a[j] {
        TwoPlaces(a, i, j);
        CountOfNoDup(b, a[i]);
      }
    }
    forall x: T ensures x in a <==> x in b {
      assert x in a <==> x in multiset(a);
      assert x in b <==> x in multiset(b);
    }
    assert |multiset(a)| == |a| && |multiset(b)| == |b|;
  }

  lemma {:induction false} SubsetOfSameSize<T>(a: set<T>, b: set<T>)
    requires a <= b && |a| >= |b|
    ensures a == b
  {
    assert b == a + (b - a);
  }

  function UpTo(n: nat): (r: set<nat>)
    ensures |r| == n && forall i: nat :: i in r <==> i < n
  {
    if n == 0 then {} else UpTo(n - 1) + {n - 1}
  }
}
