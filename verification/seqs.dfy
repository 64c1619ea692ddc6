/** Sequence helpers: element sets, duplicate-freedom and the array `pull`
    used on a mentor's list of students. */
module Seqs {

  /** The set of values occurring in `s`. */
  function Elems<T>(s: seq<T>): set<T>
  {
    set x | x in s
  }

  /** No value occurs twice in `s`. */
  predicate NoDup<T(==)>(s: seq<T>)
  {
    forall i, j | 0 <= i < j < |s| :: s[i] != s[j]
  }

  /** Removes every occurrence of `x` from `s` and keeps the order of the
      rest, as a Mongoose array's `pull` does. */
  function Pull<T(==)>(s: seq<T>, x: T): (r: seq<T>)
    ensures multiset(r) == multiset(s)[x := 0]
    ensures x !in r
    ensures forall y | y in s && y != x :: y in r
    ensures forall y | y in r :: y in s
  {
    if |s| == 0 then []
    else
      assert s == [s[0]] + s[1..];
      var rest := Pull(s[1..], x);
      if s[0] == x then rest else [s[0]] + rest
  }

  /** Pulling a value that is absent changes nothing. */
  lemma {:induction false} PullAbsent<T>(s: seq<T>, x: T)
    requires x !in s
    ensures Pull(s, x) == s
  {
    if |s| > 0 {
      PullAbsent(s[1..], x);
    }
  }

  /** Pull works piecewise: it keeps the relative order of what it keeps. */
  lemma {:induction false} PullAppend<T>(a: seq<T>, b: seq<T>, x: T)
    ensures Pull(a + b, x) == Pull(a, x) + Pull(b, x)
  {
    if |a| == 0 {
      assert a + b == b;
    } else {
      assert (a + b)[1..] == a[1..] + b;
      PullAppend(a[1..], b, x);
    }
  }

  lemma NoDupCons<T>(h: T, t: seq<T>)
    ensures NoDup([h] + t) <==> h !in t && NoDup(t)
  {
    var s := [h] + t;
    if h !in t && NoDup(t) {
      forall i, j | 0 <= i < j < |s|
        ensures s[i] != s[j]
      {
        if i > 0 {
          assert s[i] == t[i - 1] && s[j] == t[j - 1];
        } else {
          assert s[j] == t[j - 1];
        }
      }
    }
    if NoDup(s) {
      assert forall i, j | 0 <= i < j < |t| :: t[i] == s[i + 1] && t[j] == s[j + 1];
      forall k | 0 <= k < |t|
        ensures t[k] != h
      {
        assert s[0] == h && t[k] == s[k + 1];
      }
    }
  }

  /** Pulling from a duplicate-free list leaves it duplicate-free. */
  lemma {:induction false} PullNoDup<T>(s: seq<T>, x: T)
    requires NoDup(s)
    ensures NoDup(Pull(s, x))
  {
    if |s| > 0 {
      assert s == [s[0]] + s[1..];
      NoDupCons(s[0], s[1..]);
      PullNoDup(s[1..], x);
      if s[0] != x {
        NoDupCons(s[0], Pull(s[1..], x));
      }
    }
  }

  /** Concatenation is duplicate-free exactly when both parts are and they
      share no value. */
  lemma NoDupAppend<T>(a: seq<T>, b: seq<T>)
    ensures NoDup(a + b) <==> NoDup(a) && NoDup(b) && Elems(a) !! Elems(b)
  {
    var s := a + b;
    if NoDup(a) && NoDup(b) && Elems(a) !! Elems(b) {
      forall i, j | 0 <= i < j < |s|
        ensures s[i] != s[j]
      {
        if j < |a| {
        } else if i >= |a| {
          assert s[i] == b[i - |a|] && s[j] == b[j - |a|];
        } else {
          assert s[i] in Elems(a) && s[j] == b[j - |a|] && s[j] in Elems(b);
        }
      }
    }
    if NoDup(s) {
      assert forall i, j | 0 <= i < j < |b| :: b[i] == s[i + |a|] && b[j] == s[j + |a|];
      assert forall i, j | 0 <= i < j < |a| :: a[i] == s[i] && a[j] == s[j];
      forall i, j | 0 <= i < |a| && 0 <= j < |b|
        ensures a[i] != b[j]
      {
        assert a[i] == s[i] && b[j] == s[|a| + j];
      }
    }
  }

  /** A sequence has at least as many positions as distinct values, and
      exactly as many when it has no duplicates. */
  lemma {:induction false} ElemsCard<T>(s: seq<T>)
    ensures |Elems(s)| <= |s|
    ensures |Elems(s)| == |s| <==> NoDup(s)
  {
    if |s| == 0 {
      assert Elems(s) == {};
    } else {
      var t := s[1..];
      assert s == [s[0]] + t;
      ElemsCard(t);
      NoDupCons(s[0], t);
      assert Elems(s) == {s[0]} + Elems(t);
      if s[0] in t {
        assert Elems(s) == Elems(t);
      } else {
        assert s[0] !in Elems(t);
      }
    }
  }

  /** A subset is no larger than its superset, and equally large only when
      the two coincide. */
  lemma SubsetCard<T>(a: set<T>, b: set<T>)
    requires a <= b
    ensures |a| <= |b|
    ensures |a| == |b| ==> a == b
  {
    var d := b - a;
    assert b == a + d && a !! d;
    if |a| == |b| {
      assert |d| == 0;
      assert d == {};
    }
  }
}
