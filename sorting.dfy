/**
  `sortMigrations`: the entry names are sorted ascending, in place, with the
  comparator of module Lex.
 */
module Sorting {
  import Lex

  /** Every name sorts no later than every name after it. */
  ghost predicate Sorted(s: seq<string>)
  {
    forall k, l :: 0 <= k < l < |s| ==> Lex.LessEq(s[k], s[l])
  }

  /** Every name sorts no later than its right neighbour. */
  ghost predicate AdjacentSorted(s: seq<string>)
  {
    forall k :: 0 < k < |s| ==> Lex.LessEq(s[k - 1], s[k])
  }

  lemma {:induction false} AdjacentSortedIsSorted(s: seq<string>)
    requires AdjacentSorted(s)
    ensures Sorted(s)
  {
    if |s| > 1 {
      var p := s[..|s| - 1];
      assert AdjacentSorted(p) by {
        forall k | 0 < k < |p| ensures Lex.LessEq(p[k - 1], p[k]) {
          assert p[k - 1] == s[k - 1] && p[k] == s[k];
        }
      }
      AdjacentSortedIsSorted(p);
      forall k, l | 0 <= k < l < |s| ensures Lex.LessEq(s[k], s[l]) {
        if l < |s| - 1 {
          assert s[k] == p[k] && s[l] == p[l];
        } else if k < |s| - 2 {
          assert s[k] == p[k] && s[|s| - 2] == p[|s| - 2];
          Lex.LessEqTransitive(s[k], s[|s| - 2], s[l]);
        }
      }
    }
  }

  /**
    Insertion sort in place. Only the totality of the order is needed while
    sorting: the loop keeps the array sorted neighbour by neighbour.
   */
  method SortMigrations(a: array<string>)
    modifies a
    ensures Sorted(a[..])
    ensures multiset(a[..]) == multiset(old(a[..]))
  {
    var i := 0;
    while i < a.Length
      invariant 0 <= i <= a.Length
      invariant forall k :: 0 < k < i ==> Lex.LessEq(a[k - 1], a[k])
      invariant multiset(a[..]) == multiset(old(a[..]))
    {
      InsertLeft(a, i);
      i := i + 1;
    }
    AdjacentSortedIsSorted(a[..]);
  }

  /** One step of the sort: `a[i]` moves left into the sorted prefix `a[..i]`. */
  method InsertLeft(a: array<string>, i: int)
    requires 0 <= i < a.Length
    requires forall k :: 0 < k < i ==> Lex.LessEq(a[k - 1], a[k])
    modifies a
    ensures forall k :: 0 < k <= i ==> Lex.LessEq(a[k - 1], a[k])
    ensures multiset(a[..i + 1]) == multiset(old(a[..i + 1]))
    ensures a[i + 1..] == old(a[i + 1..])
    ensures multiset(a[..]) == multiset(old(a[..]))
  {
    var j := i;
    while j > 0 && !Lex.LessEq(a[j - 1], a[j])
      invariant Inserting(a[..], j, i)
      invariant a[i + 1..] == old(a[i + 1..])
      invariant multiset(a[..]) == multiset(old(a[..]))
    {
      ghost var b := a[..];
      Swap(a, j - 1, j);
      InsertStep(b, a[..], j, i);
      j := j - 1;
    }
    InsertDone(a[..], j, i);
    PrefixPermutation(old(a[..]), a[..], i + 1);
  }

  /**
    The state of `InsertLeft` while the element that started at `i` sits at
    `j`: the names before `j` and the names from `j` to `i` are each sorted
    neighbour by neighbour, and the neighbours of `j` are in order with each
    other.
   */
  ghost predicate Inserting(s: seq<string>, j: int, i: int)
  {
    && 0 <= j <= i < |s|
    && (forall k :: 0 < k < j ==> Lex.LessEq(s[k - 1], s[k]))
    && (forall k :: j < k <= i ==> Lex.LessEq(s[k - 1], s[k]))
    && (0 < j < i ==> Lex.LessEq(s[j - 1], s[j + 1]))
  }

  /** Moving the element at `j` one place left keeps `Inserting` and the tail after `i`. */
  lemma InsertStep(b: seq<string>, c: seq<string>, j: int, i: int)
    requires Inserting(b, j, i) && 0 < j && !Lex.LessEq(b[j - 1], b[j])
    requires c == b[j - 1 := b[j]][j := b[j - 1]]
    ensures Inserting(c, j - 1, i)
    ensures c[i + 1..] == b[i + 1..]
  {
    Lex.LessEqTotal(b[j - 1], b[j]);
    forall k | j - 1 < k <= i ensures Lex.LessEq(c[k - 1], c[k]) {
      if k > j + 1 {
        assert c[k - 1] == b[k - 1] && c[k] == b[k];
      }
    }
    forall k | 0 < k < j - 1 ensures Lex.LessEq(c[k - 1], c[k]) {
      assert c[k - 1] == b[k - 1] && c[k] == b[k];
    }
    if 0 < j - 1 {
      assert Lex.LessEq(b[j - 2], b[j - 1]);
    }
  }

  /** Once the element has stopped, `s[..i + 1]` is sorted neighbour by neighbour. */
  lemma InsertDone(s: seq<string>, j: int, i: int)
    requires Inserting(s, j, i) && (j == 0 || Lex.LessEq(s[j - 1], s[j]))
    ensures forall k :: 0 < k <= i ==> Lex.LessEq(s[k - 1], s[k])
  {
  }

  /**
    Two permutations of each other that agree from index `n` on are permutations
    of each other before `n` too.
   */
  lemma PrefixPermutation(s: seq<string>, t: seq<string>, n: int)
    requires 0 <= n <= |s| == |t| && multiset(s) == multiset(t)
    requires forall k :: n <= k < |s| ==> s[k] == t[k]
    ensures multiset(t[..n]) == multiset(s[..n])
    ensures t[n..] == s[n..]
  {
    assert t[n..] == s[n..];
    assert s == s[..n] + s[n..];
    assert t == t[..n] + t[n..];
    forall x ensures multiset(s[..n])[x] == multiset(t[..n])[x] {
      assert multiset(s)[x] == multiset(s[..n])[x] + multiset(s[n..])[x];
      assert multiset(t)[x] == multiset(t[..n])[x] + multiset(t[n..])[x];
    }
  }

  /** Exchanges two elements of `a`; this keeps its multiset of names. */
  method Swap(a: array<string>, i: int, j: int)
    requires 0 <= i < a.Length && 0 <= j < a.Length
    modifies a
    ensures a[..] == old(a[..])[i := old(a[j])][j := old(a[i])]
    ensures multiset(a[..]) == multiset(old(a[..]))
  {
    a[i], a[j] := a[j], a[i];
  }

  /** The name that sorts last among `s`: what "the last entry after sorting" denotes. */
  function MaxName(s: seq<string>): string
    requires |s| > 0
  {
    if |s| == 1 then s[0]
    else
      var m := MaxName(s[..|s| - 1]);
      if Lex.LessEq(m, s[|s| - 1]) then s[|s| - 1] else m
  }

  /** A name added after the current maximum, or to no names at all, becomes the maximum. */
  lemma MaxNameAppend(s: seq<string>, x: string)
    requires |s| == 0 || Lex.LessEq(MaxName(s), x)
    ensures MaxName(s + [x]) == x
  {
    if |s| > 0 {
      assert (s + [x])[..|s|] == s;
    }
  }

  lemma {:induction false} MaxNameIsMaximum(s: seq<string>)
    requires |s| > 0
    ensures MaxName(s) in s
    ensures forall x :: x in s ==> Lex.LessEq(x, MaxName(s))
  {
    if |s| == 1 {
      Lex.LessEqReflexive(s[0]);
    } else {
      var p, last := s[..|s| - 1], s[|s| - 1];
      assert s == p + [last];
      MaxNameIsMaximum(p);
      var m := MaxName(p);
      Lex.LessEqTotal(m, last);
      Lex.LessEqReflexive(last);
      forall x | x in s ensures Lex.LessEq(x, MaxName(s)) {
        if x in p && Lex.LessEq(m, last) {
          Lex.LessEqTransitive(x, m, last);
        }
      }
    }
  }

  /** Whatever order the names came in, the last of them once sorted is `MaxName`. */
  lemma SortedLastIsMaxName(t: seq<string>, s: seq<string>)
    requires Sorted(t) && multiset(t) == multiset(s) && |s| > 0
    ensures |t| == |s| && t[|t| - 1] == MaxName(s)
  {
    assert |t| == |multiset(t)| == |multiset(s)| == |s|;
    var last := t[|t| - 1];
    MaxNameIsMaximum(s);
    assert last in multiset(t);
    assert MaxName(s) in multiset(s);
    assert exists k :: 0 <= k < |t| && t[k] == MaxName(s);
    var k :| 0 <= k < |t| && t[k] == MaxName(s);
    if k < |t| - 1 {
      assert Lex.LessEq(t[k], last);
    } else {
      Lex.LessEqReflexive(last);
    }
    Lex.LessEqAntisymmetric(last, MaxName(s));
  }

  /** The maximum depends only on which names there are, not on their order. */
  lemma MaxNameOfPermutation(s: seq<string>, t: seq<string>)
    requires |s| > 0 && multiset(s) == multiset(t)
    ensures |t| > 0 && MaxName(s) == MaxName(t)
  {
    assert |t| == |multiset(t)| == |multiset(s)| == |s|;
    MaxNameIsMaximum(s);
    MaxNameIsMaximum(t);
    assert MaxName(s) in multiset(t) && MaxName(t) in multiset(s);
    Lex.LessEqAntisymmetric(MaxName(s), MaxName(t));
  }

  lemma SortedDropLast(s: seq<string>)
    requires Sorted(s) && |s| > 0
    ensures Sorted(s[..|s| - 1])
  {
    var p := s[..|s| - 1];
    forall k, l | 0 <= k < l < |p| ensures Lex.LessEq(p[k], p[l]) {
      assert p[k] == s[k] && p[l] == s[l];
    }
  }

  lemma MultisetDropLast(s: seq<string>, t: seq<string>)
    requires |s| > 0 && |t| > 0 && s[|s| - 1] == t[|t| - 1] && multiset(s) == multiset(t)
    ensures multiset(s[..|s| - 1]) == multiset(t[..|t| - 1])
  {
    var last := s[|s| - 1];
    var p, q := s[..|s| - 1], t[..|t| - 1];
    assert s == p + [last];
    assert t == q + [last];
    forall x ensures multiset(p)[x] == multiset(q)[x] {
      assert multiset(s)[x] == multiset(p)[x] + multiset([last])[x];
      assert multiset(t)[x] == multiset(q)[x] + multiset([last])[x];
    }
  }

  /**
    A sorted permutation is unique, so any correct sort (the runtime's own
    `Array.prototype.sort` included) leaves the names in the same order
    as `SortMigrations` does.
   */
  lemma {:induction false} SortedPermutationUnique(s: seq<string>, t: seq<string>)
    requires Sorted(s) && Sorted(t) && multiset(s) == multiset(t)
    ensures s == t
  {
    assert |t| == |multiset(t)| == |multiset(s)| == |s|;
    if |s| > 0 {
      SortedLastIsMaxName(s, s);
      SortedLastIsMaxName(t, s);
      MultisetDropLast(s, t);
      SortedDropLast(s);
      SortedDropLast(t);
      SortedPermutationUnique(s[..|s| - 1], t[..|t| - 1]);
      assert s == s[..|s| - 1] + [s[|s| - 1]];
      assert t == t[..|t| - 1] + [t[|t| - 1]];
    }
  }
}
