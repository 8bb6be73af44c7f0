/**
  Python's `list.sort` / `sorted` with a key: a stable sort. It is modelled by
  a stable insertion sort over a comparison `le` ("may come before").
*/
module Seqs {

  /** `le` is total and transitive, as a comparison of sort keys is. */
  ghost predicate TotalPreorder<T(!new)>(le: (T, T) -> bool) {
    && (forall a, b :: le(a, b) || le(b, a))
    && (forall a, b, c :: le(a, b) && le(b, c) ==> le(a, c))
  }

  predicate Sorted<T>(s: seq<T>, le: (T, T) -> bool) {
    forall i, j | 0 <= i < j < |s| :: le(s[i], s[j])
  }

  /** Puts `x` before the first element it may precede, so ties keep `x` first. */
  function Insert<T>(x: T, t: seq<T>, le: (T, T) -> bool): seq<T>
    decreases |t|
  {
    if t == [] || le(x, t[0]) then [x] + t else [t[0]] + Insert(x, t[1..], le)
  }

  function InsertionSort<T>(s: seq<T>, le: (T, T) -> bool): seq<T>
    decreases |s|
  {
    if s == [] then [] else Insert(s[0], InsertionSort(s[1..], le), le)
  }

  lemma {:induction false} InsertPermutes<T>(x: T, t: seq<T>, le: (T, T) -> bool)
    ensures multiset(Insert(x, t, le)) == multiset(t) + multiset{x}
    decreases |t|
  {
    if t == [] || le(x, t[0]) {
      assert Insert(x, t, le) == [x] + t;
    } else {
      var rest := Insert(x, t[1..], le);
      InsertPermutes(x, t[1..], le);
      assert Insert(x, t, le) == [t[0]] + rest;
      assert multiset([t[0]] + rest) == multiset{t[0]} + multiset(rest);
      assert t == [t[0]] + t[1..];
      assert multiset(t) == multiset{t[0]} + multiset(t[1..]);
    }
  }

  /** A sorted sequence stays sorted behind an element that may precede all of it. */
  lemma SortedCons<T>(h: T, t: seq<T>, le: (T, T) -> bool)
    requires Sorted(t, le) && forall i | 0 <= i < |t| :: le(h, t[i])
    ensures Sorted([h] + t, le)
  {
    var r := [h] + t;
    forall i, j | 0 <= i < j < |r| ensures le(r[i], r[j]) {
      assert r[j] == t[j - 1];
      if i > 0 {
        assert r[i] == t[i - 1];
      }
    }
  }

  /** A lower bound of `x` and of all of `t` bounds all of `Insert(x, t)`. */
  lemma InsertLowerBound<T>(b: T, x: T, t: seq<T>, le: (T, T) -> bool)
    requires le(b, x) && forall i | 0 <= i < |t| :: le(b, t[i])
    ensures forall i | 0 <= i < |Insert(x, t, le)| :: le(b, Insert(x, t, le)[i])
  {
    var r := Insert(x, t, le);
    InsertPermutes(x, t, le);
    forall i | 0 <= i < |r| ensures le(b, r[i]) {
      assert r[i] in multiset(r);
      if r[i] != x {
        assert r[i] in multiset(t);
        var k :| 0 <= k < |t| && t[k] == r[i];
      }
    }
  }

  lemma {:induction false} InsertSorted<T(!new)>(x: T, t: seq<T>, le: (T, T) -> bool)
    requires TotalPreorder(le) && Sorted(t, le)
    ensures Sorted(Insert(x, t, le), le)
    decreases |t|
  {
    if t == [] {
    } else if le(x, t[0]) {
      forall i | 0 <= i < |t| ensures le(x, t[i]) {
        if i > 0 {
          assert le(t[0], t[i]);
        }
      }
      SortedCons(x, t, le);
    } else {
      InsertSorted(x, t[1..], le);
      forall i | 0 <= i < |t[1..]| ensures le(t[0], t[1..][i]) {
        assert t[1..][i] == t[i + 1];
      }
      InsertLowerBound(t[0], x, t[1..], le);
      SortedCons(t[0], Insert(x, t[1..], le), le);
    }
  }

  /** The sort returns a permutation of its input. */
  lemma {:induction false} SortPermutes<T>(s: seq<T>, le: (T, T) -> bool)
    ensures multiset(InsertionSort(s, le)) == multiset(s)
    decreases |s|
  {
    if s != [] {
      SortPermutes(s[1..], le);
      InsertPermutes(s[0], InsertionSort(s[1..], le), le);
      assert s == [s[0]] + s[1..];
    }
  }

  /** The sort returns its input in order. */
  lemma {:induction false} SortSorted<T(!new)>(s: seq<T>, le: (T, T) -> bool)
    requires TotalPreorder(le)
    ensures Sorted(InsertionSort(s, le), le)
    decreases |s|
  {
    if s != [] {
      SortSorted(s[1..], le);
      InsertSorted(s[0], InsertionSort(s[1..], le), le);
    }
  }

  /**
    `[x for x in s if keep(x)]`: the accepted elements in their order, each
    as often as it occurs in `s`.
  */
  function Filter<T(==,!new)>(s: seq<T>, keep: T -> bool): (r: seq<T>)
    ensures |r| <= |s|
    ensures forall x :: multiset(r)[x] == if keep(x) then multiset(s)[x] else 0
    ensures forall x :: x in r <==> x in s && keep(x)
    ensures SubsequenceOf(r, s)
    decreases |s|
  {
    if s == [] then []
    else
      var init := s[..|s| - 1];
      var last := s[|s| - 1];
      var kept := Filter(init, keep);
      assert s == init + [last];
      if keep(last) then
        SubsequenceOfKeep(kept, init, last);
        kept + [last]
      else
        SubsequenceOfSkip(kept, init, last);
        kept
  }

  /** Filtering one more element: it is appended iff it is accepted. */
  lemma FilterStep<T(!new)>(s: seq<T>, keep: T -> bool)
    requires s != []
    ensures Filter(s, keep) == Filter(s[..|s| - 1], keep) + (if keep(s[|s| - 1]) then [s[|s| - 1]] else [])
  {
  }

  /** Filtering a sorted sequence leaves it sorted. */
  lemma {:induction false} FilterSorted<T(!new)>(s: seq<T>, keep: T -> bool, le: (T, T) -> bool)
    requires Sorted(s, le)
    ensures Sorted(Filter(s, keep), le)
    decreases |s|
  {
    if s != [] {
      var init := s[..|s| - 1];
      var last := s[|s| - 1];
      assert Sorted(init, le) by {
        forall i, j | 0 <= i < j < |init| ensures le(init[i], init[j]) {
          assert init[i] == s[i] && init[j] == s[j];
        }
      }
      FilterSorted(init, keep, le);
      var kept := Filter(init, keep);
      if keep(last) {
        var r := kept + [last];
        assert Filter(s, keep) == r;
        forall i, j | 0 <= i < j < |r| ensures le(r[i], r[j]) {
          if j == |r| - 1 {
            assert r[i] in kept;
            var k :| 0 <= k < |init| && init[k] == r[i];
            assert s[k] == r[i];
          } else {
            assert r[i] == kept[i] && r[j] == kept[j];
          }
        }
      }
    }
  }

  /** `r` is `s` with some elements left out: filtering keeps the order. */
  predicate SubsequenceOf<T(==)>(r: seq<T>, s: seq<T>)
    decreases |s|
  {
    if r == [] then true
    else if s == [] then false
    else if r[|r| - 1] == s[|s| - 1] then SubsequenceOf(r[..|r| - 1], s[..|s| - 1])
    else SubsequenceOf(r, s[..|s| - 1])
  }

  lemma SubsequenceOfKeep<T>(r: seq<T>, s: seq<T>, x: T)
    requires SubsequenceOf(r, s)
    ensures SubsequenceOf(r + [x], s + [x])
  {
    assert (r + [x])[..|r|] == r;
    assert (s + [x])[..|s|] == s;
  }

  lemma {:induction false} SubsequenceOfSkip<T>(r: seq<T>, s: seq<T>, x: T)
    requires SubsequenceOf(r, s)
    ensures SubsequenceOf(r, s + [x])
    decreases |s|, 1
  {
    var t := s + [x];
    assert t[..|t| - 1] == s;
    if r != [] && r[|r| - 1] == x {
      SubsequenceOfDropLast(r, s);
    }
  }

  lemma {:induction false} SubsequenceOfDropLast<T>(r: seq<T>, s: seq<T>)
    requires r != [] && SubsequenceOf(r, s)
    ensures SubsequenceOf(r[..|r| - 1], s)
    decreases |s|, 0
  {
    var init := r[..|r| - 1];
    if s != [] && r[|r| - 1] != s[|s| - 1] {
      SubsequenceOfDropLast(r, s[..|s| - 1]);
      SubsequenceOfSkip(init, s[..|s| - 1], s[|s| - 1]);
      assert s[..|s| - 1] + [s[|s| - 1]] == s;
    } else if s != [] {
      SubsequenceOfSkip(init, s[..|s| - 1], s[|s| - 1]);
      assert s[..|s| - 1] + [s[|s| - 1]] == s;
    }
  }

  /** An element at two positions occurs at least twice. */
  lemma RepeatCounts<T>(s: seq<T>, i: nat, j: nat)
    requires i < j < |s| && s[i] == s[j]
    ensures multiset(s)[s[i]] >= 2
  {
    assert s == s[..j] + s[j..];
    assert s[i] in s[..j] && s[j] in s[j..];
    assert multiset(s) == multiset(s[..j]) + multiset(s[j..]);
  }

  /** In a sequence without repeats every element occurs at most once. */
  lemma {:induction false} DistinctCounts<T>(s: seq<T>, x: T)
    requires forall i, j | 0 <= i < j < |s| :: s[i] != s[j]
    ensures multiset(s)[x] <= 1
    decreases |s|
  {
    if s != [] {
      var rest := s[1..];
      DistinctCounts(rest, x);
      assert s == [s[0]] + rest;
      if s[0] == x {
        assert x !in rest by {
          forall k | 0 <= k < |rest| ensures rest[k] != x {
            assert rest[k] == s[k + 1];
          }
        }
      }
    }
  }
}
