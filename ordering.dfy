/** Orders the engine relies on: ascending iteration of std::set and
    std::map keys, the lexicographic order of strings, and the std::sort
    and std::unique algorithms it applies to vectors. */
module Ordering {

  /** Byte-wise lexicographic order of strings, as std::string compares. */
  predicate StrLess(a: string, b: string)
  {
    if |a| == 0 then |b| > 0
    else if |b| == 0 then false
    else if a[0] != b[0] then a[0] < b[0]
    else StrLess(a[1..], b[1..])
  }

  lemma {:induction false} StrLessIrreflexive(a: string)
    ensures !StrLess(a, a)
  {
    if |a| > 0 {
      StrLessIrreflexive(a[1..]);
    }
  }

  lemma {:induction false} StrLessTransitive(a: string, b: string, c: string)
    requires StrLess(a, b) && StrLess(b, c)
    ensures StrLess(a, c)
  {
    if |a| > 0 && |b| > 0 && |c| > 0 && a[0] == b[0] && b[0] == c[0] {
      StrLessTransitive(a[1..], b[1..], c[1..]);
    }
  }

  lemma {:induction false} StrLessTotal(a: string, b: string)
    ensures a == b || StrLess(a, b) || StrLess(b, a)
  {
    if |a| > 0 && |b| > 0 && a[0] == b[0] {
      StrLessTotal(a[1..], b[1..]);
      if a[1..] == b[1..] {
        assert a == [a[0]] + a[1..] && b == [b[0]] + b[1..];
      }
    }
  }

  /** The empty string comes before every other string. */
  lemma EmptyStringIsLeast(s: string)
    requires s != ""
    ensures StrLess("", s)
  {
  }

  /** Strictly increasing sequence of strings. */
  ghost predicate StrictlyIncreasing(s: seq<string>)
  {
    forall i, j :: 0 <= i < j < |s| ==> StrLess(s[i], s[j])
  }

  /** A sequence in which every neighbour strictly follows its predecessor is
      strictly increasing throughout. */
  lemma {:induction false} AdjacentIncreasingIsIncreasing(s: seq<string>)
    requires forall i :: 0 < i < |s| ==> StrLess(s[i - 1], s[i])
    ensures StrictlyIncreasing(s)
  {
    if |s| > 1 {
      var t := s[..|s| - 1];
      assert forall i :: 0 < i < |t| ==> StrLess(t[i - 1], t[i]);
      AdjacentIncreasingIsIncreasing(t);
      forall i, j | 0 <= i < j < |s|
        ensures StrLess(s[i], s[j])
      {
        if j < |s| - 1 {
          assert s[i] == t[i] && s[j] == t[j];
        } else if i < |s| - 2 {
          assert StrLess(t[i], t[|s| - 2]);
          StrLessTransitive(s[i], s[|s| - 2], s[|s| - 1]);
        }
      }
    }
  }

  /** The least element of a finite non-empty set of ids. */
  ghost function Least(s: set<nat>): (m: nat)
    requires s != {}
    ensures m in s && forall z :: z in s ==> m <= z
  {
    var x :| x in s;
    if s == {x} then x
    else
      var y := Least(s - {x});
      assert forall z :: z in s ==> z == x || z in s - {x};
      if x < y then x else y
  }

  /** The elements of s in ascending order: the order in which std::set and
      std::map visit their keys. */
  method SortedIds(s: set<nat>) returns (r: seq<nat>)
    ensures forall i, j :: 0 <= i < j < |r| ==> r[i] < r[j]
    ensures forall x :: x in r <==> x in s
  {
    r := [];
    var rest := s;
    while rest != {}
      invariant rest <= s
      invariant forall x :: x in s ==> (x in r <==> x !in rest)
      invariant forall x :: x in r ==> x in s
      invariant forall i, j :: 0 <= i < j < |r| ==> r[i] < r[j]
      invariant forall i, x :: 0 <= i < |r| && x in rest ==> r[i] < x
      decreases rest
    {
      ghost var least := Least(rest);
      var m :| m in rest && forall x :: x in rest ==> m <= x;
      r := r + [m];
      rest := rest - {m};
    }
  }

  /** Every finite non-empty set of strings has a least element. */
  lemma LeastWord(s: set<string>) returns (m: string)
    requires s != {}
    ensures m in s && forall z :: z in s && z != m ==> StrLess(m, z)
    decreases s
  {
    var x :| x in s;
    if s == {x} {
      m := x;
    } else {
      var y := LeastWord(s - {x});
      StrLessTotal(x, y);
      if StrLess(x, y) {
        m := x;
        forall z | z in s && z != x
          ensures StrLess(x, z)
        {
          if z != y {
            StrLessTransitive(x, y, z);
          }
        }
      } else {
        m := y;
      }
    }
  }

  /** The elements of a set of strings in ascending order: the order in
      which a std::set of strings visits them. */
  method SortedWords(s: set<string>) returns (r: seq<string>)
    ensures StrictlyIncreasing(r)
    ensures forall i, j :: 0 <= i < j < |r| ==> r[i] != r[j]
    ensures forall x :: x in r <==> x in s
  {
    r := [];
    var rest := s;
    while rest != {}
      invariant rest <= s
      invariant forall x :: x in s ==> (x in r <==> x !in rest)
      invariant forall x :: x in r ==> x in s
      invariant StrictlyIncreasing(r)
      invariant forall i, j :: 0 <= i < j < |r| ==> r[i] != r[j]
      invariant forall i, x :: 0 <= i < |r| && x in rest ==> StrLess(r[i], x)
      decreases rest
    {
      ghost var least := LeastWord(rest);
      var m :| m in rest && forall z :: z in rest && z != m ==> StrLess(m, z);
      r := r + [m];
      rest := rest - {m};
    }
  }

  /** No neighbour pair is out of order under `before`: position i + 1 never
      comes strictly before position i. */
  ghost predicate AdjacentOrdered<T>(s: seq<T>, before: (T, T) -> bool)
  {
    forall i :: 0 < i < |s| ==> !before(s[i], s[i - 1])
  }

  /** `before` never holds both ways, as std::sort requires of a comparator. */
  ghost predicate Asymmetric<T(!new)>(before: (T, T) -> bool)
  {
    forall x, y :: before(x, y) ==> !before(y, x)
  }

  method Swap<T>(a: array<T>, i: int, j: int)
    requires 0 <= i < a.Length && 0 <= j < a.Length
    modifies a
    ensures a[..] == old(a[..])[i := old(a[j])][j := old(a[i])]
    ensures multiset(a[..]) == multiset(old(a[..]))
  {
    a[i], a[j] := a[j], a[i];
  }

  /** std::sort with comparator `before`, as insertion sort. The comparator
      may fail to be transitive, so what is promised is the permutation and
      that no neighbour pair is out of order. */
  method SortBy<T(!new)>(a: array<T>, before: (T, T) -> bool)
    requires Asymmetric(before)
    modifies a
    ensures AdjacentOrdered(a[..], before)
    ensures multiset(a[..]) == multiset(old(a[..]))
  {
    var i := 0;
    while i < a.Length
      invariant 0 <= i <= a.Length
      invariant AdjacentOrdered(a[..i], before)
      invariant multiset(a[..]) == multiset(old(a[..]))
    {
      var j := i;
      while j > 0 && before(a[j], a[j - 1])
        invariant 0 <= j <= i
        invariant forall k :: 0 < k <= i && k != j ==> !before(a[k], a[k - 1])
        invariant 0 < j < i ==> !before(a[j + 1], a[j - 1])
        invariant multiset(a[..]) == multiset(old(a[..]))
      {
        Swap(a, j, j - 1);
        j := j - 1;
      }
      i := i + 1;
    }
  }

  lemma StrLessAsymmetric()
    ensures Asymmetric(StrLess)
  {
    forall x, y | StrLess(x, y)
      ensures !StrLess(y, x)
    {
      if StrLess(y, x) {
        StrLessTransitive(x, y, x);
        StrLessIrreflexive(x);
      }
    }
  }

  /** Nothing comes before the empty string. */
  lemma NothingBeforeEmpty(s: string)
    ensures !StrLess(s, "")
  {
  }

  /** The sequence with every run of equal neighbours cut down to its first
      element: what std::unique leaves before the returned end. */
  function Dedup(s: seq<string>): (r: seq<string>)
    ensures |r| <= |s|
    ensures |s| > 0 ==> |r| > 0 && r[|r| - 1] == s[|s| - 1]
  {
    if |s| <= 1 then s
    else
      var d := Dedup(s[..|s| - 1]);
      if s[|s| - 1] == s[|s| - 2] then d else d + [s[|s| - 1]]
  }

  /** Cutting runs down keeps every element. */
  lemma {:induction false} DedupElements(s: seq<string>)
    ensures forall x :: x in Dedup(s) <==> x in s
  {
    if |s| > 1 {
      var t := s[..|s| - 1];
      DedupElements(t);
      assert s == t + [s[|s| - 1]];
      assert s[|s| - 2] == t[|t| - 1];
    }
  }

  /** A sorted sequence, runs cut down, is strictly increasing. */
  lemma {:induction false} DedupSortedIncreasing(s: seq<string>)
    requires AdjacentOrdered(s, StrLess)
    ensures forall i :: 0 < i < |Dedup(s)| ==> StrLess(Dedup(s)[i - 1], Dedup(s)[i])
  {
    if |s| > 1 {
      var t := s[..|s| - 1];
      assert AdjacentOrdered(t, StrLess);
      DedupSortedIncreasing(t);
      var d := Dedup(t);
      if s[|s| - 1] != s[|s| - 2] {
        assert d[|d| - 1] == s[|s| - 2];
        StrLessTotal(s[|s| - 2], s[|s| - 1]);
        var r := d + [s[|s| - 1]];
        forall i | 0 < i < |r|
          ensures StrLess(r[i - 1], r[i])
        {
          if i < |d| {
            assert r[i - 1] == d[i - 1] && r[i] == d[i];
          }
        }
      }
    }
  }

  /** One more element either extends the last run or starts a new one. */
  lemma DedupStep(s: seq<string>, k: nat)
    requires 0 < k < |s|
    ensures Dedup(s[..k + 1]) == if s[k] == s[k - 1] then Dedup(s[..k]) else Dedup(s[..k]) + [s[k]]
  {
    assert s[..k + 1][..k] == s[..k];
  }

  /** std::unique: keep the first element of every run of equal
      neighbours, moved to the front, and return the new end. */
  method Unique(a: array<string>) returns (n: nat)
    modifies a
    ensures n <= a.Length
    ensures a[..n] == Dedup(old(a[..]))
  {
    if a.Length == 0 {
      return 0;
    }
    ghost var original := a[..];
    var result := 0;
    var first := 1;
    while first < a.Length
      invariant 1 <= first <= a.Length
      invariant result < first
      invariant a[..result + 1] == Dedup(original[..first])
      invariant forall i :: first <= i < a.Length ==> a[i] == original[i]
    {
      ghost var kept := a[..result + 1];
      DedupStep(original, first);
      assert a[result] == original[first - 1] by {
        assert a[result] == kept[result];
      }
      if a[result] != a[first] {
        result := result + 1;
        a[result] := a[first];
        assert a[..result + 1] == kept + [original[first]];
      }
      first := first + 1;
    }
    assert original[..a.Length] == original;
    return result + 1;
  }
}
