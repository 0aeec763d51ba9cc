/** Sequence facts shared by the searches: duplicate-freedom, and the
    stable comparison sort that `Array.prototype.sort` performs on the
    Dijkstra and A* frontiers. The sort is given as a stable insertion sort;
    any stable sort yields the same sequence. */
module Sequences {

  ghost predicate NoDups<T>(s: seq<T>) {
    forall i, j :: 0 <= i < j < |s| ==> s[i] != s[j]
  }

  /** The sequence with its element at `k` taken out: `shift()` for k = 0,
      `pop()` for the last index. */
  function RemoveAt<T>(s: seq<T>, k: int): (r: seq<T>)
    requires 0 <= k < |s|
    ensures |r| == |s| - 1
    ensures forall x :: x in r ==> x in s
    ensures forall x :: x in s && x != s[k] ==> x in r
    ensures NoDups(s) ==> NoDups(r) && s[k] !in r
  {
    var r := s[..k] + s[k + 1..];
    assert forall i :: 0 <= i < |r| ==> r[i] == s[if i < k then i else i + 1];
    assert forall x :: x in s && x != s[k] ==> x in r by {
      forall x | x in s && x != s[k]
        ensures x in r
      {
        var j :| 0 <= j < |s| && s[j] == x;
        assert r[if j < k then j else j - 1] == x;
      }
    }
    r
  }

  lemma AppendNoDups<T>(a: seq<T>, b: seq<T>)
    requires NoDups(a) && NoDups(b)
    requires forall x :: x in b ==> x !in a
    ensures NoDups(a + b)
  {
    forall i, j | 0 <= i < j < |a + b|
      ensures (a + b)[i] != (a + b)[j]
    {
      if i < |a| <= j {
        assert (a + b)[j] == b[j - |a|] && (a + b)[i] in a;
      } else if |a| <= i {
        assert (a + b)[i] == b[i - |a|] && (a + b)[j] == b[j - |a|];
      }
    }
  }

  /** Appending to the tail of a concatenation appends to the whole. */
  lemma AppendOne<T>(a: seq<T>, b: seq<T>, x: T)
    ensures a + (b + [x]) == (a + b) + [x]
  {
  }

  /** The members of a prefix one element longer. */
  lemma PrefixNext<T>(s: seq<T>, i: int)
    requires 0 <= i < |s|
    ensures forall x :: x in s[..i + 1] <==> x in s[..i] || x == s[i]
  {
    assert s[..i + 1] == s[..i] + [s[i]];
  }

  /** A permutation has the same members. */
  lemma SameMembers<T>(a: seq<T>, b: seq<T>)
    requires multiset(a) == multiset(b)
    ensures forall x :: x in a <==> x in b
  {
    forall x
      ensures x in a <==> x in b
    {
      assert x in a <==> x in multiset(a);
      assert x in b <==> x in multiset(b);
    }
  }

  /** Two positions holding the same value make its count at least two. */
  lemma {:induction false} TwiceCounted<T>(s: seq<T>, i: int, j: int)
    requires 0 <= i < j < |s| && s[i] == s[j]
    ensures multiset(s)[s[i]] >= 2
  {
    assert s == s[..j] + s[j..];
    assert s[i] in s[..j];
    assert s[j..] == [s[j]] + s[j + 1..];
    assert multiset(s) == multiset(s[..j]) + multiset{s[j]} + multiset(s[j + 1..]);
  }

  lemma {:induction false} NoDupsCount<T>(s: seq<T>, x: T)
    requires NoDups(s)
    ensures multiset(s)[x] <= 1
    decreases |s|
  {
    if s != [] {
      var last := s[|s| - 1];
      var front := s[..|s| - 1];
      assert s == front + [last];
      NoDupsCount(front, x);
      if x == last {
        forall k | 0 <= k < |front|
          ensures front[k] != x
        {
          assert s[k] != s[|s| - 1];
        }
        assert x !in multiset(front);
      }
    }
  }

  /** A permutation of a duplicate-free sequence is duplicate-free. */
  lemma PermutationNoDups<T>(s: seq<T>, t: seq<T>)
    requires NoDups(s) && multiset(s) == multiset(t)
    ensures NoDups(t)
  {
    forall i, j | 0 <= i < j < |t|
      ensures t[i] != t[j]
    {
      if t[i] == t[j] {
        TwiceCounted(t, i, j);
        NoDupsCount(s, t[i]);
        assert false;
      }
    }
  }

  /** `le` is total and transitive on the values of `s`. */
  ghost predicate TotalOn<T>(s: seq<T>, le: (T, T) -> bool) {
    (forall a, b :: a in s && b in s ==> le(a, b) || le(b, a)) &&
    (forall a, b, c :: a in s && b in s && c in s && le(a, b) && le(b, c) ==> le(a, c))
  }

  ghost predicate Sorted<T>(s: seq<T>, le: (T, T) -> bool) {
    forall i, j :: 0 <= i < j < |s| ==> le(s[i], s[j])
  }

  /** Puts `x` after every element of `t` that is not greater than it and
      before the rest. */
  function Insert<T>(t: seq<T>, x: T, le: (T, T) -> bool): (r: seq<T>)
    ensures multiset(r) == multiset(t) + multiset{x}
    ensures |r| == |t| + 1
  {
    if t == [] then [x]
    else if !le(t[0], x) then [x] + t
    else
      assert t == [t[0]] + t[1..];
      [t[0]] + Insert(t[1..], x, le)
  }

  /** The frontier sort: a stable sort of `s` under the comparator `le`,
      inserting the elements in their order. */
  function SortBy<T>(s: seq<T>, le: (T, T) -> bool): (r: seq<T>)
    ensures multiset(r) == multiset(s)
    ensures |r| == |s|
  {
    if s == [] then []
    else
      assert s == s[..|s| - 1] + [s[|s| - 1]];
      Insert(SortBy(s[..|s| - 1], le), s[|s| - 1], le)
  }

  /** A total preorder on `s` is one on any part of it. */
  lemma TotalOnPart<T>(s: seq<T>, t: seq<T>, le: (T, T) -> bool)
    requires TotalOn(s, le) && forall a :: a in t ==> a in s
    ensures TotalOn(t, le)
  {
  }

  /** An element below every element of a sorted sequence can go in front. */
  lemma SortedCons<T>(x: T, t: seq<T>, le: (T, T) -> bool)
    requires Sorted(t, le) && forall k :: 0 <= k < |t| ==> le(x, t[k])
    ensures Sorted([x] + t, le)
  {
    forall i, j | 0 <= i < j < |[x] + t|
      ensures le(([x] + t)[i], ([x] + t)[j])
    {
      if i > 0 {
        assert ([x] + t)[i] == t[i - 1];
      }
      assert ([x] + t)[j] == t[j - 1];
    }
  }

  lemma {:induction false} InsertSorted<T>(t: seq<T>, x: T, le: (T, T) -> bool)
    requires Sorted(t, le) && TotalOn(t + [x], le)
    ensures Sorted(Insert(t, x, le), le)
    decreases |t|
  {
    var all := t + [x];
    assert x in all;
    if t != [] {
      assert t[0] in all;
      if !le(t[0], x) {
        forall k | 0 <= k < |t|
          ensures le(x, t[k])
        {
          assert t[k] in all;
        }
        SortedCons(x, t, le);
      } else {
        var rest := t[1..];
        assert t == [t[0]] + rest;
        TotalOnPart(all, rest + [x], le);
        InsertSorted(rest, x, le);
        var ins := Insert(rest, x, le);
        forall k | 0 <= k < |ins|
          ensures le(t[0], ins[k])
        {
          assert ins[k] in multiset(ins);
          if ins[k] != x {
            assert ins[k] in multiset(rest);
            var m :| 0 <= m < |rest| && rest[m] == ins[k];
            assert t[m + 1] == ins[k];
          }
        }
        SortedCons(t[0], ins, le);
      }
    }
  }

  /** Under a total preorder the frontier sort orders its input. */
  lemma {:induction false} SortBySorted<T>(s: seq<T>, le: (T, T) -> bool)
    requires TotalOn(s, le)
    ensures Sorted(SortBy(s, le), le)
    decreases |s|
  {
    if s != [] {
      var front := s[..|s| - 1];
      assert s == front + [s[|s| - 1]];
      forall a | a in front
        ensures a in s
      {
        var k :| 0 <= k < |front| && front[k] == a;
        assert s[k] == a;
      }
      SortBySorted(front, le);
      var sorted := SortBy(front, le);
      forall a | a in sorted + [s[|s| - 1]]
        ensures a in s
      {
        if a in sorted {
          assert a in multiset(sorted);
          assert a in multiset(front);
        }
      }
      InsertSorted(sorted, s[|s| - 1], le);
    }
  }

  /** Stability: an element that no earlier element exceeds stays last. */
  lemma {:induction false} InsertAfterEqual<T>(t: seq<T>, x: T, le: (T, T) -> bool)
    requires forall i :: 0 <= i < |t| ==> le(t[i], x)
    ensures Insert(t, x, le) == t + [x]
    decreases |t|
  {
    if t != [] {
      InsertAfterEqual(t[1..], x, le);
      assert t == [t[0]] + t[1..];
    }
  }

  /** A sequence the comparator already orders is left as it is, so
      elements with equal keys keep their relative order. */
  lemma {:induction false} SortBySortedInput<T>(s: seq<T>, le: (T, T) -> bool)
    requires Sorted(s, le)
    ensures SortBy(s, le) == s
    decreases |s|
  {
    if s != [] {
      var front := s[..|s| - 1];
      assert s == front + [s[|s| - 1]];
      SortBySortedInput(front, le);
      forall i | 0 <= i < |front|
        ensures le(front[i], s[|s| - 1])
      {
        assert front[i] == s[i];
      }
      InsertAfterEqual(front, s[|s| - 1], le);
    }
  }
}
